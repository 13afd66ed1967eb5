/**
  The last-known-good store of one Profile as a sequence of file operations. The ghost log
  holds the disk after every one of them: a crash is a process that stops at some log entry,
  and a reader may read the manifest at one entry and the generation at a later one.
 */
module PhpStore {
  import opened Prelude
  import opened PhpDigest
  import opened PhpSnapshot
  import opened StoppedRuns

  datatype TemporaryName = GenerationTemporary(generation: Generation) | ManifestTemporary(random: nat)

  datatype Disk = Disk(temporaries: map<TemporaryName, Content>, generations: map<Generation, Content>,
                       manifest: Option<Content>)

  const NewDisk := Disk(map[], map[], None)

  /** A disk, and how many activations were committed on the way to it. */
  datatype Moment = Moment(disk: Disk, commits: nat)

  function LoadDisk(f: Formats, key: string, d: Disk): Loaded { Load(f, key, d.manifest, d.generations) }

  function Current(key: string, d: Disk): Option<Manifest> {
    match ReadManifest(key, d.manifest)
    case CurrentManifest(m) => Some(m)
    case _ => None
  }

  function ActiveOf(key: string, d: Disk): Option<Generation> {
    if Current(key, d).Some? then Current(key, d).value.activeGeneration else None
  }

  function PreviousOf(key: string, d: Disk): Option<Generation> {
    if Current(key, d).Some? then Current(key, d).value.previousGeneration else None
  }

  // ---------------------------------------------------------------------------
  // Histories

  /** Activations are counted, and each remembers the generation before it. */
  ghost predicate Linked(key: string, x: Moment, y: Moment) {
    && x.commits <= y.commits
    && (x.commits == y.commits ==> ActiveOf(key, x.disk) == ActiveOf(key, y.disk))
    && (x.commits + 1 == y.commits ==> ActiveOf(key, x.disk) == PreviousOf(key, y.disk))
  }

  /** What was active at `x` is still whole at `y`, up to one activation later. */
  ghost predicate Kept(key: string, x: Moment, y: Moment) {
    y.commits <= x.commits + 1 && ActiveOf(key, x.disk).Some? ==>
      var g := ActiveOf(key, x.disk).value;
      g in x.disk.generations && g in y.disk.generations && y.disk.generations[g] == x.disk.generations[g]
  }

  ghost predicate Sound(f: Formats, key: string, log: seq<Moment>) {
    && log != []
    && (forall i {:trigger LoadDisk(f, key, log[i].disk)} | 0 <= i < |log| :: LoadDisk(f, key, log[i].disk).Ok?)
    && (forall i, j {:trigger Linked(key, log[i], log[j])} | 0 <= i <= j < |log| :: Linked(key, log[i], log[j]))
    && (forall i, j {:trigger Kept(key, log[i], log[j])} | 0 <= i <= j < |log| :: Kept(key, log[i], log[j]))
  }

  /** Pointers and their files stay, or one activation commits. */
  ghost predicate Follows(key: string, x: Moment, y: Moment) {
    var active, previous := ActiveOf(key, x.disk), PreviousOf(key, x.disk);
    if y.commits == x.commits then
      && ActiveOf(key, y.disk) == active && PreviousOf(key, y.disk) == previous
      && forall g | g in x.disk.generations && (Some(g) == active || Some(g) == previous) ::
           g in y.disk.generations && y.disk.generations[g] == x.disk.generations[g]
    else
      y.commits == x.commits + 1 && PreviousOf(key, y.disk) == active && y.disk.generations == x.disk.generations
  }

  lemma SoundGrows(f: Formats, key: string, log: seq<Moment>, m: Moment)
    requires Sound(f, key, log) && LoadDisk(f, key, m.disk).Ok? && Follows(key, log[|log| - 1], m)
    ensures Sound(f, key, log + [m])
  {
    var last := log[|log| - 1];
    assert Linked(key, last, last) && Kept(key, last, last);
    forall i | 0 <= i < |log|
      ensures Linked(key, log[i], m) && Kept(key, log[i], m)
    {
      assert Linked(key, log[i], last) && Kept(key, log[i], last);
    }
    ActiveIsPresent(f, key, m.disk);
    assert Linked(key, m, m) && Kept(key, m, m);
  }

  lemma ActiveIsPresent(f: Formats, key: string, d: Disk)
    requires LoadDisk(f, key, d).Ok?
    ensures ActiveOf(key, d).Some? ==> ActiveOf(key, d).value in d.generations
  {
  }

  /** Stopping at any file operation leaves a sound history. */
  lemma PrefixIsSound(f: Formats, key: string, log: seq<Moment>, k: nat)
    requires Sound(f, key, log) && k < |log|
    ensures Sound(f, key, log[..k + 1]) && LoadDisk(f, key, log[k].disk).Ok?
  {
    var cut := log[..k + 1];
    assert forall i | 0 <= i < |cut| :: cut[i] == log[i];
  }

  /**
    A reader that takes the manifest at one moment and the generation at a later one, at most
    one activation on, gets exactly what was committed when it read the manifest.
   */
  lemma ReaderSeesWholeSnapshot(f: Formats, key: string, log: seq<Moment>, i: nat, j: nat)
    requires Sound(f, key, log) && i <= j < |log| && log[j].commits <= log[i].commits + 1
    ensures Load(f, key, log[i].disk.manifest, log[j].disk.generations) == LoadDisk(f, key, log[i].disk)
    ensures LoadDisk(f, key, log[i].disk).Ok?
  {
    assert Kept(key, log[i], log[j]);
  }

  // ---------------------------------------------------------------------------
  // What whole operations leave behind

  function RecordedDisk(key: string, d: Disk, facts: Facts, disabled: bool): Disk {
    d.(manifest := Some(ManifestFile(ManifestForFacts(key, Current(key, d), facts, disabled))))
  }

  function UnchangedDisk(key: string, d: Disk, facts: Facts, etag: Option<string>): Disk {
    d.(manifest := Some(ManifestFile(ManifestForFacts(key, Current(key, d), facts, false).(etag := etag))))
  }

  function WrittenGeneration(d: Disk, a: Activation, g: Generation): Disk {
    d.(generations := d.generations[g := GenerationFile(EncodeGeneration(a))])
  }

  function CommittedActivation(d: Disk, a: Activation, g: Generation): Disk {
    WrittenGeneration(d, a, g).(manifest := Some(ManifestFile(ActivatedManifest(Current(a.profileKey, d), a, g))))
  }

  /** The generations pruning has not removed while `entries` are still to be looked at. */
  function Spared(generations: map<Generation, Content>, active: Generation, previous: Option<Generation>,
                  entries: set<Generation>): map<Generation, Content> {
    map g | g in generations && (g in entries || g == active || Some(g) == previous) :: generations[g]
  }

  lemma SparedStep(generations: map<Generation, Content>, active: Generation, previous: Option<Generation>,
                   entries: set<Generation>, entry: Generation)
    requires entry in entries
    ensures var now, next := Spared(generations, active, previous, entries), Spared(generations, active, previous, entries - {entry});
            if entry == active || Some(entry) == previous then next == now else next == now - {entry}
  {
  }

  /** A committed activation whose pruning has still to look at `entries`. */
  function PrunedActivation(d: Disk, a: Activation, g: Generation, entries: set<Generation>): Disk {
    var committed := CommittedActivation(d, a, g);
    committed.(generations := Spared(committed.generations, g, ActiveOf(a.profileKey, d), entries))
  }

  /** A complete activation: committed, and every generation but it and its predecessor removed. */
  function CompletedActivation(d: Disk, a: Activation, g: Generation): Disk { PrunedActivation(d, a, g, {}) }

  function ActivatedState(f: Formats, a: Activation): LocalState {
    LocalState(Some(SnapshotOf(f, a)), false, WholeSecondsOf(a.facts.lastSuccessfulSyncAt))
  }

  /** What the manifest and the active snapshot can carry. */
  predicate Storable(a: Activation) {
    ConsistentActivation(a) && GoodFacts(a.facts)
  }

  /** Committing an activation makes exactly its snapshot the loaded one, or nothing loads. */
  lemma CommitLoads(f: Formats, d: Disk, a: Activation, g: Generation)
    ensures LoadDisk(f, a.profileKey, CommittedActivation(d, a, g)) ==
            if Storable(a) then Ok(ActivatedState(f, a)) else Invalid
  {
    var m := ActivatedManifest(Current(a.profileKey, d), a, g);
    GenerationRoundTrip(f, a, m);
  }

  /** Facts change what loads only in the flag and the time, if they can be stored at all. */
  lemma RecordLoads(f: Formats, key: string, d: Disk, facts: Facts, disabled: bool)
    requires LoadDisk(f, key, d).Ok?
    ensures LoadDisk(f, key, RecordedDisk(key, d, facts, disabled)) ==
            if GoodFacts(facts)
            then Ok(LoadDisk(f, key, d).state.(disabled := disabled,
                                               lastSuccessfulSyncAt := WholeSecondsOf(facts.lastSuccessfulSyncAt)))
            else Invalid
  {
  }

  function WithEtag(s: LocalState, etag: Option<string>): LocalState {
    if s.active.None? then s else s.(active := Some(s.active.value.(etag := etag)))
  }

  lemma UnchangedLoads(f: Formats, key: string, d: Disk, facts: Facts, etag: Option<string>)
    requires LoadDisk(f, key, d).Ok?
    ensures LoadDisk(f, key, UnchangedDisk(key, d, facts, etag)) ==
            if GoodFacts(facts)
            then Ok(WithEtag(LoadDisk(f, key, d).state, etag)
                      .(disabled := false, lastSuccessfulSyncAt := WholeSecondsOf(facts.lastSuccessfulSyncAt)))
            else Invalid
  {
  }

  /** Committing moves the active generation to the previous one; a manifest that cannot be read names neither. */
  lemma CommitPointers(d: Disk, a: Activation, g: Generation, commits: nat)
    requires g in d.generations && d.generations[g] == GenerationFile(EncodeGeneration(a))
    ensures var e, key := CommittedActivation(d, a, g), a.profileKey;
            && ActiveOf(key, e) in {None, Some(g)}
            && e == d.(manifest := e.manifest)
            && (Storable(a) ==> && ActiveOf(key, e) == Some(g) && PreviousOf(key, e) == ActiveOf(key, d)
                                && Follows(key, Moment(d, commits), Moment(e, commits + 1)))
  {
    assert WrittenGeneration(d, a, g) == d;
  }

  lemma PrunedPointers(f: Formats, d: Disk, a: Activation, g: Generation, entries: set<Generation>)
    requires Storable(a)
    ensures var e := PrunedActivation(d, a, g, entries);
            && ActiveOf(a.profileKey, e) == Some(g) && PreviousOf(a.profileKey, e) == ActiveOf(a.profileKey, d)
            && LoadDisk(f, a.profileKey, e) == Ok(ActivatedState(f, a))
  {
    CommitLoads(f, d, a, g);
    SameLoad(f, a.profileKey, CommittedActivation(d, a, g), PrunedActivation(d, a, g, entries));
  }

  /** A complete activation keeps its own generation and the one it replaced, and no other. */
  lemma CompletedKeeps(d: Disk, a: Activation, g: Generation)
    requires g !in d.generations
    ensures var e := CompletedActivation(d, a, g);
            && (forall h :: h in e.generations <==> h == g || (h in d.generations && Some(h) == ActiveOf(a.profileKey, d)))
            && e.generations[g] == GenerationFile(EncodeGeneration(a))
            && (forall h | h in e.generations && h != g :: e.generations[h] == d.generations[h])
            && e.temporaries == d.temporaries
  {
  }

  /**
    A reader that took the manifest before two activations, the second of them stopped anywhere
    after its commit, gets what it came for exactly when pruning has not reached its generation;
    otherwise it finds nothing. The first activation's pruning never takes it.
   */
  lemma ReaderOverlappingTwo(f: Formats, key: string, d: Disk, a: Activation, g: Generation, first: set<Generation>,
                             b: Activation, h: Generation, second: set<Generation>)
    requires LoadDisk(f, key, d).Ok? && ActiveOf(key, d).Some?
    requires Storable(a) && a.profileKey == key && Storable(b) && b.profileKey == key
    requires g !in d.generations && h !in PrunedActivation(d, a, g, first).generations && Some(h) != ActiveOf(key, d)
    ensures var between := PrunedActivation(d, a, g, first); var after := PrunedActivation(between, b, h, second);
            && Load(f, key, d.manifest, between.generations) == LoadDisk(f, key, d)
            && Load(f, key, d.manifest, after.generations) ==
               (if ActiveOf(key, d).value in second then LoadDisk(f, key, d) else Invalid)
            && LoadDisk(f, key, after) == Ok(ActivatedState(f, b))
  {
    var between := PrunedActivation(d, a, g, first);
    PrunedPointers(f, d, a, g, first);
    PrunedPointers(f, between, b, h, second);
    ActiveIsPresent(f, key, d);
    ReaderGets(f, key, d, ActiveOf(key, d).value, between.generations);
    ReaderGets(f, key, d, ActiveOf(key, d).value, PrunedActivation(between, b, h, second).generations);
  }

  /** A reader needs the manifest it read and the generation that one names. */
  lemma ReaderGets(f: Formats, key: string, d: Disk, g: Generation, generations: map<Generation, Content>)
    requires LoadDisk(f, key, d).Ok? && ActiveOf(key, d) == Some(g) && g in d.generations
    requires g in generations ==> generations[g] == d.generations[g]
    ensures Load(f, key, d.manifest, generations) == if g in generations then LoadDisk(f, key, d) else Invalid
  {
  }

  /**
    An activation that cannot be stored leaves a manifest that can still be read exactly when only
    its generation is at fault, and over any manifest that can be read a storable activation makes
    its own snapshot load again and starts a sound history.
   */
  lemma ActivationRecovers(f: Formats, key: string, d: Disk, a: Activation, g: Generation,
                           b: Activation, h: Generation, entries: set<Generation>, commits: nat)
    requires a.profileKey == key && b.profileKey == key && Storable(b)
    ensures var broken := CommittedActivation(d, a, g);
            && (ReadManifest(key, broken.manifest) != InvalidManifest <==> a.apiVersion == "v1" && GoodFacts(a.facts))
            && (LoadDisk(f, key, broken) == Invalid <==> !Storable(a))
    ensures ReadManifest(key, d.manifest) != InvalidManifest ==>
              var recovered := PrunedActivation(d, b, h, entries);
              && LoadDisk(f, key, recovered) == Ok(ActivatedState(f, b))
              && Sound(f, key, [Moment(recovered, commits)])
  {
    CommitLoads(f, d, a, g);
    PrunedPointers(f, d, b, h, entries);
    var m := Moment(PrunedActivation(d, b, h, entries), commits);
    assert Linked(key, m, m) && Kept(key, m, m);
  }

  // ---------------------------------------------------------------------------
  // Sequences of operations, stopped anywhere

  datatype Operation =
    | Activating(activation: Activation)
    | Unchanging(facts: Facts, etag: Option<string>)
    | Disabling(facts: Facts)
    | Failing(facts: Facts)

  /** Whether the manifest and the active snapshot can carry what the operation brings. */
  predicate Accepted(op: Operation) {
    match op
    case Activating(a) => Storable(a)
    case Unchanging(facts, _) => GoodFacts(facts)
    case Disabling(facts) => GoodFacts(facts)
    case Failing(facts) => GoodFacts(facts)
  }

  function WithFacts(s: LocalState, facts: Facts, disabled: bool): LocalState {
    s.(disabled := disabled, lastSuccessfulSyncAt := WholeSecondsOf(facts.lastSuccessfulSyncAt))
  }

  /** What loads once an operation is committed; an unchanged answer without a snapshot is refused. */
  function AfterOperation(f: Formats, loaded: Loaded, op: Operation): Loaded {
    if loaded.Invalid? then Invalid else
    if op.Unchanging? && loaded.state.active.None? then loaded else
    if !Accepted(op) then Invalid else
    match op
    case Activating(a) => Ok(ActivatedState(f, a))
    case Unchanging(facts, etag) => Ok(WithFacts(WithEtag(loaded.state, etag), facts, false))
    case Disabling(facts) => Ok(WithFacts(loaded.state, facts, true))
    case Failing(facts) => Ok(WithFacts(loaded.state, facts, loaded.state.disabled))
  }

  function Afterwards(f: Formats): (Loaded, Operation) -> Loaded { (loaded, op) => AfterOperation(f, loaded, op) }

  function Shown(f: Formats, key: string): Moment -> Loaded { (m: Moment) => LoadDisk(f, key, m.disk) }

  ghost predicate LoadsAll(f: Formats, key: string, log: seq<Moment>, first: nat, last: nat, loaded: Loaded) {
    first <= last <= |log| && forall k {:trigger LoadDisk(f, key, log[k].disk)} | first <= k < last :: LoadDisk(f, key, log[k].disk) == loaded
  }

  function LastLoaded(f: Formats, key: string, log: seq<Moment>): Loaded
    requires log != []
  {
    LoadDisk(f, key, log[|log| - 1].disk)
  }

  /**
    What an operation that runs to its end does to the history: up to the commit point everything
    loads as before, from it on as after the operation.
   */
  ghost predicate Performed(f: Formats, key: string, before: seq<Moment>, after: seq<Moment>, op: Operation, point: nat) {
    && Sound(f, key, before) && before <= after && |before| - 1 <= point < |after|
    && LoadsAll(f, key, after, |before| - 1, point, LastLoaded(f, key, before))
    && LoadsAll(f, key, after, point, |after|, AfterOperation(f, LastLoaded(f, key, before), op))
    && (point > 0 ==> Sound(f, key, after[..point])) && (Accepted(op) ==> Sound(f, key, after))
  }

  lemma PerformedWhole(f: Formats, key: string, before: seq<Moment>, after: seq<Moment>, op: Operation, point: nat,
                       commits: nat, later: nat)
    requires Sound(f, key, before) && before <= after && |before| <= point < |after|
    requires Loads(f, key, after, |before|, point, LastLoaded(f, key, before), commits)
    requires Loads(f, key, after, point, |after|, AfterOperation(f, LastLoaded(f, key, before), op), later)
    requires Sound(f, key, after[..point]) && (Accepted(op) ==> Sound(f, key, after))
    ensures Performed(f, key, before, after, op, point)
  {
    assert forall k | |before| <= k < point :: LoadsAt(f, key, after[k], LastLoaded(f, key, before), commits);
    assert forall k | point <= k < |after| ::
        LoadsAt(f, key, after[k], AfterOperation(f, LastLoaded(f, key, before), op), later);
    assert after[|before| - 1] == before[|before| - 1];
  }

  /** An operation whose last step is its commit. */
  lemma CommittedLast(f: Formats, key: string, before: seq<Moment>, after: seq<Moment>, op: Operation, point: nat)
    requires Sound(f, key, before) && before <= after && |before| <= point == |after| - 1
    requires Loads(f, key, after, |before|, point, LastLoaded(f, key, before), before[|before| - 1].commits)
    requires LastLoaded(f, key, after) == AfterOperation(f, LastLoaded(f, key, before), op)
    requires Sound(f, key, after[..point]) && (Accepted(op) ==> Sound(f, key, after))
    ensures Performed(f, key, before, after, op, point)
  {
    PerformedWhole(f, key, before, after, op, point, before[|before| - 1].commits, after[point].commits);
  }

  lemma RefusedIsPerformed(f: Formats, key: string, log: seq<Moment>, op: Operation)
    requires Sound(f, key, log) && AfterOperation(f, LastLoaded(f, key, log), op) == LastLoaded(f, key, log)
    ensures Performed(f, key, log, log, op, |log| - 1)
  {
    if |log| > 1 {
      PrefixIsSound(f, key, log, |log| - 2);
    }
  }

  /** Operations one after another; each starts from what the one before, whole or stopped, left on disk. */
  ghost predicate History(f: Formats, key: string, log: seq<Moment>, episodes: seq<Episode<Moment, Operation>>) {
    && Sound(f, key, log)
    && (forall e | e in episodes :: e.stopped <= |e.whole|)
    && (episodes == [] ||
        var earlier, e := episodes[..|episodes| - 1], episodes[|episodes| - 1];
        && History(f, key, log, earlier)
        && Performed(f, key, LogAfter(log, earlier), e.whole, e.op, e.point)
        && |LogAfter(log, earlier)| <= e.stopped)
  }

  /** What a store performs, and a new store over any part of it, extends a history. */
  lemma HistoryGrows(f: Formats, key: string, log: seq<Moment>, episodes: seq<Episode<Moment, Operation>>,
                     op: Operation, whole: seq<Moment>, point: nat, stopped: nat)
    requires History(f, key, log, episodes) && Performed(f, key, LogAfter(log, episodes), whole, op, point)
    requires |LogAfter(log, episodes)| <= stopped <= |whole|
    ensures var more := episodes + [Episode(op, whole, point, stopped)];
            History(f, key, log, more) && LogAfter(log, more) == whole[..stopped]
  {
    var more := episodes + [Episode(op, whole, point, stopped)];
    assert more[..|more| - 1] == episodes;
  }

  lemma PerformedShows(f: Formats, key: string, before: seq<Moment>, e: Episode<Moment, Operation>)
    requires Performed(f, key, before, e.whole, e.op, e.point)
    ensures Shows(Shown(f, key), Afterwards(f), before, e)
  {
    forall i | |before| - 1 <= i < |e.whole|
      ensures LoadDisk(f, key, e.whole[i].disk) ==
              if i < e.point then LastLoaded(f, key, before) else AfterOperation(f, LastLoaded(f, key, before), e.op)
    {
      assert i < e.point ==> LoadDisk(f, key, e.whole[i].disk) == LastLoaded(f, key, before);
    }
  }

  lemma {:induction false} HistoryShows(f: Formats, key: string, log: seq<Moment>, episodes: seq<Episode<Moment, Operation>>)
    requires History(f, key, log, episodes)
    ensures Chained(log, episodes) && AllShow(Shown(f, key), Afterwards(f), log, episodes)
    decreases |episodes|
  {
    if episodes != [] {
      var earlier := episodes[..|episodes| - 1];
      HistoryShows(f, key, log, earlier);
      PerformedShows(f, key, LogAfter(log, earlier), episodes[|episodes| - 1]);
    }
  }

  /**
    After any sequence of operations, each run to its end or stopped between any two of its file
    operations: every moment of the history, the last one included, loads exactly what the
    operations committed by then leave behind.
   */
  lemma CrashAnywhere(f: Formats, key: string, log: seq<Moment>, episodes: seq<Episode<Moment, Operation>>, i: nat)
    requires History(f, key, log, episodes) && |log| - 1 <= i < |LogAfter(log, episodes)|
    ensures LoadDisk(f, key, LogAfter(log, episodes)[i].disk) ==
            Fold(Afterwards(f), LastLoaded(f, key, log), CommittedBy(episodes, i))
  {
    HistoryShows(f, key, log, episodes);
    EveryMoment(Shown(f, key), Afterwards(f), log, episodes, i);
  }

  /** A store that was stopped can go on, if what was committed last could be stored. */
  lemma StoppedIsSound(f: Formats, key: string, log: seq<Moment>, episodes: seq<Episode<Moment, Operation>>)
    requires History(f, key, log, episodes)
    requires episodes != [] ==> var e := episodes[|episodes| - 1]; Accepted(e.op) || e.stopped <= e.point
    ensures Sound(f, key, LogAfter(log, episodes))
  {
    if episodes != [] {
      var e := episodes[|episodes| - 1];
      assert e.stopped >= 1;
      if Accepted(e.op) {
        PrefixIsSound(f, key, e.whole, e.stopped - 1);
      } else {
        PrefixIsSound(f, key, e.whole[..e.point], e.stopped - 1);
        assert e.whole[..e.point][..e.stopped] == e.whole[..e.stopped];
      }
    }
  }

  /** The same for a reader that overlaps at most one committed activation of such a history. */
  lemma ReaderAnywhere(f: Formats, key: string, log: seq<Moment>, episodes: seq<Episode<Moment, Operation>>, i: nat, j: nat)
    requires History(f, key, log, episodes) && Sound(f, key, LogAfter(log, episodes))
    requires |log| - 1 <= i <= j < |LogAfter(log, episodes)|
    requires LogAfter(log, episodes)[j].commits <= LogAfter(log, episodes)[i].commits + 1
    ensures Load(f, key, LogAfter(log, episodes)[i].disk.manifest, LogAfter(log, episodes)[j].disk.generations) ==
            Fold(Afterwards(f), LastLoaded(f, key, log), CommittedBy(episodes, i))
  {
    CrashAnywhere(f, key, log, episodes, i);
    ReaderSeesWholeSnapshot(f, key, LogAfter(log, episodes), i, j);
  }

  // ---------------------------------------------------------------------------
  // Single file operations

  lemma SamePointersFollow(key: string, x: Moment, y: Moment)
    requires y.commits == x.commits && y.disk.manifest == x.disk.manifest
    requires forall g | g in x.disk.generations && (Some(g) == ActiveOf(key, x.disk) || Some(g) == PreviousOf(key, x.disk)) ::
               g in y.disk.generations && y.disk.generations[g] == x.disk.generations[g]
    ensures Follows(key, x, y)
  {
  }

  /** Loading looks at the manifest and the generation it names. */
  lemma SameLoad(f: Formats, key: string, d: Disk, e: Disk)
    requires e.manifest == d.manifest
    requires ActiveOf(key, d).Some? ==>
               var g := ActiveOf(key, d).value;
               g in d.generations && g in e.generations && e.generations[g] == d.generations[g]
    ensures LoadDisk(f, key, e) == LoadDisk(f, key, d)
  {
  }

  /** Every moment from `first` on loads the same. */
  ghost predicate Loads(f: Formats, key: string, log: seq<Moment>, first: nat, last: nat, loaded: Loaded, commits: nat) {
    first <= last <= |log| &&
    forall k {:trigger LoadsAt(f, key, log[k], loaded, commits)} | first <= k < last :: LoadsAt(f, key, log[k], loaded, commits)
  }

  ghost predicate LoadsAt(f: Formats, key: string, m: Moment, loaded: Loaded, commits: nat) {
    LoadDisk(f, key, m.disk) == loaded && m.commits == commits
  }

  lemma LoadsLater(f: Formats, key: string, log: seq<Moment>, later: seq<Moment>, first: nat, last: nat,
                   loaded: Loaded, commits: nat)
    requires Loads(f, key, log, first, last, loaded, commits) && log <= later
    ensures Loads(f, key, later, first, last, loaded, commits)
  {
  }

  lemma LoadsJoined(f: Formats, key: string, log: seq<Moment>, first: nat, middle: nat, last: nat, loaded: Loaded, commits: nat)
    requires Loads(f, key, log, first, middle, loaded, commits) && Loads(f, key, log, middle, last, loaded, commits)
    ensures Loads(f, key, log, first, last, loaded, commits)
  {
  }

  /** An activation whose manifest has just been renamed into place, and nothing has been pruned. */
  ghost predicate Published(f: Formats, key: string, before: seq<Moment>, after: seq<Moment>, a: Activation, g: Generation,
                            commit: nat) {
    && before != [] && before <= after && |before| <= commit == |after| - 1
    && Loads(f, key, after, |before|, commit, LastLoaded(f, key, before), before[|before| - 1].commits)
    && after[commit] == Moment(CommittedActivation(before[|before| - 1].disk, a, g), before[|before| - 1].commits + 1)
    && Sound(f, key, after[..commit]) && (Storable(a) ==> Sound(f, key, after))
  }

  lemma CommitPublishes(f: Formats, key: string, before: seq<Moment>, after: seq<Moment>, a: Activation, g: Generation,
                        commit: nat)
    requires a.profileKey == key && before != [] && before <= after && |before| <= commit == |after| - 1
    requires Loads(f, key, after, |before|, commit, LastLoaded(f, key, before), before[|before| - 1].commits)
    requires var last := before[|before| - 1]; var d := last.disk;
             && g in d.generations && d.generations[g] == GenerationFile(EncodeGeneration(a))
             && after[commit] == Moment(d.(manifest := Some(ManifestFile(ActivatedManifest(Current(key, d), a, g)))), last.commits + 1)
             && (LoadDisk(f, key, after[commit].disk).Ok? && Follows(key, last, after[commit]) ==> Sound(f, key, after))
    requires Sound(f, key, after[..commit])
    ensures Published(f, key, before, after, a, g, commit)
  {
    var last := before[|before| - 1];
    CommitLoads(f, last.disk, a, g);
    CommitPointers(last.disk, a, g, last.commits);
    assert WrittenGeneration(last.disk, a, g) == last.disk;
  }

  lemma PublishedMeans(f: Formats, d: Disk, a: Activation, g: Generation)
    ensures var e, key := CommittedActivation(d, a, g), a.profileKey;
            && LoadDisk(f, key, e) == (if Storable(a) then Ok(ActivatedState(f, a)) else Invalid)
            && ActiveOf(key, e) in {None, Some(g)} && g in e.generations
            && (Storable(a) ==> ActiveOf(key, e) == Some(g) && PreviousOf(key, e) == ActiveOf(key, d))
  {
    CommitLoads(f, d, a, g);
  }

  /** Writing the generation before is part of publishing it. */
  lemma PublishedFromStaged(f: Formats, key: string, before: seq<Moment>, staged: seq<Moment>, after: seq<Moment>,
                            a: Activation, g: Generation, commit: nat)
    requires before != [] && before <= staged && a.profileKey == key && staged != []
    requires var last := staged[|staged| - 1];
             last.disk == WrittenGeneration(before[|before| - 1].disk, a, g) && last.commits == before[|before| - 1].commits
    requires LastLoaded(f, key, staged) == LastLoaded(f, key, before)
    requires Loads(f, key, staged, |before|, |staged|, LastLoaded(f, key, before), before[|before| - 1].commits)
    requires Published(f, key, staged, after, a, g, commit)
    ensures Published(f, key, before, after, a, g, commit)
  {
    var d, loaded, commits := before[|before| - 1].disk, LastLoaded(f, key, before), before[|before| - 1].commits;
    var document := GenerationFile(EncodeGeneration(a));
    assert d.generations[g := document][g := document] == d.generations[g := document];
    LoadsLater(f, key, staged, after, |before|, |staged|, loaded, commits);
    LoadsJoined(f, key, after, |before|, |staged|, commit, loaded, commits);
  }

  /** Publishing, and pruning as far as it got. */
  lemma ActivationPerformed(f: Formats, key: string, before: seq<Moment>, published: seq<Moment>, after: seq<Moment>,
                            a: Activation, g: Generation, commit: nat)
    requires a.profileKey == key && Sound(f, key, before) && Published(f, key, before, published, a, g, commit)
    requires published <= after && (Storable(a) ==> Sound(f, key, after))
    requires Loads(f, key, after, |published|, |after|, LastLoaded(f, key, published), published[commit].commits)
    ensures Performed(f, key, before, after, Activating(a), commit)
    ensures after[commit] == published[commit]
  {
    CommitLoads(f, before[|before| - 1].disk, a, g);
    assert LastLoaded(f, key, published) == AfterOperation(f, LastLoaded(f, key, before), Activating(a));
    assert after[..commit] == published[..commit];
    LoadsLater(f, key, published, after, |before|, commit, LastLoaded(f, key, before), before[|before| - 1].commits);
    PerformedWhole(f, key, before, after, Activating(a), commit, before[|before| - 1].commits, published[commit].commits);
  }

  // ---------------------------------------------------------------------------
  // The store

  class FilesystemProfileStateStore {
    const formats: Formats
    const profileKey: string
    var disk: Disk
    ghost var log: seq<Moment>

    ghost predicate Valid()
      reads this
    {
      Sound(formats, profileKey, log) && log[|log| - 1].disk == disk
    }

    constructor (f: Formats, key: string)
      ensures Valid() && formats == f && profileKey == key && disk == NewDisk && log == [Moment(NewDisk, 0)]
    {
      formats, profileKey, disk, log := f, key, NewDisk, [Moment(NewDisk, 0)];
    }

    /** A new process over whatever an earlier one left at any point of its history. */
    constructor AfterCrash(f: Formats, key: string, d: Disk, ghost history: seq<Moment>, ghost k: nat)
      requires Sound(f, key, history) && k < |history| && history[k].disk == d
      ensures Valid() && formats == f && profileKey == key && disk == d && log == history[..k + 1]
      ensures Loaded() == LoadDisk(f, key, history[k].disk)
    {
      formats, profileKey, disk := f, key, d;
      log := history[..k + 1];
      new;
      PrefixIsSound(f, key, history, k);
    }

    ghost function Commits(): nat
      reads this
      requires log != []
    {
      log[|log| - 1].commits
    }

    ghost function Loaded(): Loaded
      reads this
    {
      LoadDisk(formats, profileKey, disk)
    }

    // -------------------------------------------------------------------------
    // File operations

    /** The file exists before its contents are complete. */
    method WriteExclusive(name: TemporaryName, content: Content)
      requires Valid() && name !in disk.temporaries
      modifies this
      ensures Valid() && old(log) <= log && Commits() == old(Commits())
      ensures disk == old(disk).(temporaries := old(disk).temporaries[name := content])
      ensures Loaded() == old(Loaded())
      ensures Loads(formats, profileKey, log, |old(log)|, |log|, old(Loaded()), old(Commits()))
    {
      disk := disk.(temporaries := disk.temporaries[name := Incomplete]);
      NoteQuiet();
      disk := disk.(temporaries := disk.temporaries[name := content]);
      NoteQuiet();
    }

    /** Logs a disk on which manifest, active and previous generation are as before. */
    ghost method NoteQuiet()
      requires Sound(formats, profileKey, log)
      requires var before := log[|log| - 1].disk;
               disk.manifest == before.manifest &&
               forall g | g in before.generations &&
                          (Some(g) == ActiveOf(profileKey, before) || Some(g) == PreviousOf(profileKey, before)) ::
                 g in disk.generations && disk.generations[g] == before.generations[g]
      modifies this`log
      ensures Valid() && log == old(log) + [Moment(disk, old(Commits()))]
      ensures Loaded() == LoadDisk(formats, profileKey, old(log[|log| - 1].disk))
    {
      var x, y := log[|log| - 1], Moment(disk, Commits());
      ActiveIsPresent(formats, profileKey, x.disk);
      SameLoad(formats, profileKey, x.disk, disk);
      SamePointersFollow(profileKey, x, y);
      SoundGrows(formats, profileKey, log, y);
      log := log + [y];
    }

    method RenameGeneration(g: Generation)
      requires Valid() && GenerationTemporary(g) in disk.temporaries && g !in disk.generations
      modifies this
      ensures Valid() && old(log) <= log && Commits() == old(Commits())
      ensures disk == old(disk).(temporaries := old(disk).temporaries - {GenerationTemporary(g)},
                                 generations := old(disk).generations[g := old(disk).temporaries[GenerationTemporary(g)]])
      ensures Loaded() == old(Loaded())
      ensures Loads(formats, profileKey, log, |old(log)|, |log|, old(Loaded()), old(Commits()))
    {
      disk := disk.(temporaries := disk.temporaries - {GenerationTemporary(g)},
                    generations := disk.generations[g := disk.temporaries[GenerationTemporary(g)]]);
      NoteQuiet();
    }

    /** Replaces the manifest in one step; `commits` counts it if it is an activation. */
    method RenameManifest(name: TemporaryName, ghost commits: nat)
      requires Valid() && name in disk.temporaries
      modifies this
      ensures disk == old(disk).(temporaries := old(disk).temporaries - {name}, manifest := Some(old(disk).temporaries[name]))
      ensures log == old(log) + [Moment(disk, commits)]
      ensures Loaded().Ok? && Follows(profileKey, Moment(old(disk), old(Commits())), Moment(disk, commits)) ==> Valid()
    {
      disk := disk.(temporaries := disk.temporaries - {name}, manifest := Some(disk.temporaries[name]));
      if Loaded().Ok? && Follows(profileKey, log[|log| - 1], Moment(disk, commits)) {
        SoundGrows(formats, profileKey, log, Moment(disk, commits));
      }
      log := log + [Moment(disk, commits)];
    }

    method CommitManifest(m: Manifest, random: nat, ghost commits: nat) returns (ghost commit: nat)
      requires Valid() && ManifestTemporary(random) !in disk.temporaries
      modifies this
      ensures disk == old(disk).(manifest := Some(ManifestFile(m)))
      ensures old(log) <= log && commit == |log| - 1 >= |old(log)| && log[commit] == Moment(disk, commits)
      ensures Sound(formats, profileKey, log[..commit])
      ensures Loads(formats, profileKey, log, |old(log)|, commit, old(Loaded()), old(Commits()))
      ensures Loaded().Ok? && Follows(profileKey, Moment(old(disk), old(Commits())), Moment(disk, commits)) ==> Valid()
    {
      var name := ManifestTemporary(random);
      WriteExclusive(name, ManifestFile(m));
      commit := |log|;
      RenameManifest(name, commits);
      assert log[..commit] == log[..|log| - 1];
      assert disk.temporaries == old(disk.temporaries);
    }

    // -------------------------------------------------------------------------
    // Operations

    method ReadManifestFile() returns (m: Option<Manifest>)
      requires Valid()
      ensures m == Current(profileKey, disk)
    {
      assert LoadDisk(formats, profileKey, log[|log| - 1].disk).Ok?;
      match ReadManifest(profileKey, disk.manifest)
      case CurrentManifest(current) => m := Some(current);
      case NoManifest => m := None;
      case InvalidManifest => assert false;
    }

    method RecordFacts(facts: Facts, disabled: bool, random: nat) returns (ghost commit: nat)
      requires Valid() && ManifestTemporary(random) !in disk.temporaries
      modifies this
      ensures disk == RecordedDisk(profileKey, old(disk), facts, disabled)
      ensures GoodFacts(facts) ==> Valid() && Loaded() == Ok(WithFacts(old(Loaded()).state, facts, disabled))
      ensures !GoodFacts(facts) ==> Loaded() == Invalid
      ensures old(log) <= log && |old(log)| <= commit == |log| - 1
      ensures Loads(formats, profileKey, log, |old(log)|, commit, old(Loaded()), old(Commits()))
      ensures Sound(formats, profileKey, log[..commit]) && log[commit] == Moment(disk, old(Commits()))
    {
      var current := ReadManifestFile();
      RecordLoads(formats, profileKey, disk, facts, disabled);
      commit := CommitManifest(ManifestForFacts(profileKey, current, facts, disabled), random, Commits());
    }

    method MarkDisabled(facts: Facts, random: nat) returns (ghost commit: nat)
      requires Valid() && ManifestTemporary(random) !in disk.temporaries
      modifies this
      ensures disk == RecordedDisk(profileKey, old(disk), facts, true)
      ensures GoodFacts(facts) ==> Valid() && Loaded() == Ok(WithFacts(old(Loaded()).state, facts, true))
      ensures !GoodFacts(facts) ==> Loaded() == Invalid
      ensures Performed(formats, profileKey, old(log), log, Disabling(facts), commit)
    {
      commit := RecordFacts(facts, true, random);
      CommittedLast(formats, profileKey, old(log), log, Disabling(facts), commit);
    }

    method RecordFailure(facts: Facts, random: nat) returns (ghost commit: nat)
      requires Valid() && ManifestTemporary(random) !in disk.temporaries
      modifies this
      ensures GoodFacts(facts) ==> Valid() && Loaded() == Ok(WithFacts(old(Loaded()).state, facts, old(Loaded()).state.disabled))
      ensures !GoodFacts(facts) ==> Loaded() == Invalid
      ensures Performed(formats, profileKey, old(log), log, Failing(facts), commit)
    {
      var current := ReadManifestFile();
      commit := RecordFacts(facts, current.Some? && current.value.disabled, random);
      CommittedLast(formats, profileKey, old(log), log, Failing(facts), commit);
    }

    /** Refused without an active generation. */
    method RecordUnchanged(facts: Facts, etag: Option<string>, random: nat) returns (done: bool, ghost commit: nat)
      requires Valid() && ManifestTemporary(random) !in disk.temporaries
      modifies this
      ensures done == ActiveOf(profileKey, old(disk)).Some?
      ensures !done ==> disk == old(disk) && log == old(log)
      ensures done ==> disk == UnchangedDisk(profileKey, old(disk), facts, etag)
      ensures done && GoodFacts(facts) ==>
                Valid() && Loaded() == Ok(WithFacts(WithEtag(old(Loaded()).state, etag), facts, false))
      ensures done && !GoodFacts(facts) ==> Loaded() == Invalid
      ensures Performed(formats, profileKey, old(log), log, Unchanging(facts, etag), commit)
    {
      var current := ReadManifestFile();
      if current.None? || current.value.activeGeneration.None? {
        RefusedIsPerformed(formats, profileKey, log, Unchanging(facts, etag));
        return false, |log| - 1;
      }
      UnchangedLoads(formats, profileKey, disk, facts, etag);
      commit := CommitManifest(ManifestForFacts(profileKey, current, facts, false).(etag := etag), random, Commits());
      CommittedLast(formats, profileKey, old(log), log, Unchanging(facts, etag), commit);
      done := true;
    }

    method DeleteGeneration(g: Generation)
      requires log != [] && log[|log| - 1].disk == disk
      requires Valid() ==> Some(g) != ActiveOf(profileKey, disk) && Some(g) != PreviousOf(profileKey, disk)
      modifies this
      ensures disk == old(disk).(generations := old(disk).generations - {g})
      ensures log == old(log) + [Moment(disk, old(Commits()))]
      ensures old(Valid()) ==> Valid() && Loaded() == old(Loaded())
    {
      disk := disk.(generations := disk.generations - {g});
      if old(Valid()) {
        NoteQuiet();
      } else {
        log := log + [Moment(disk, Commits())];
      }
    }

    /** Best effort: stops early when a deletion fails. */
    method PruneGenerations(active: Generation, previous: Option<Generation>, failsAfter: Option<nat>)
      requires log != [] && log[|log| - 1].disk == disk && active in disk.generations
      requires Valid() ==> ActiveOf(profileKey, disk) == Some(active) && PreviousOf(profileKey, disk) == previous
      requires ActiveOf(profileKey, disk) in {None, Some(active)}
      modifies this
      ensures old(log) <= log && log[|log| - 1].disk == disk
      ensures old(Valid()) ==> Valid()
      ensures Commits() == old(Commits())
      ensures Loads(formats, profileKey, log, |old(log)|, |log|, old(Loaded()), old(Commits()))
      ensures disk.manifest == old(disk).manifest && disk.temporaries == old(disk).temporaries && Loaded() == old(Loaded())
      ensures failsAfter.None? ==> disk.generations == Spared(old(disk).generations, active, previous, {})
    {
      var entries := disk.generations.Keys;
      var deleted := 0;
      while entries != {}
        invariant old(log) <= log && log != [] && log[|log| - 1].disk == disk
        invariant old(Valid()) ==> Valid()
        invariant Commits() == old(Commits())
        invariant Loaded() == old(Loaded())
        invariant Loads(formats, profileKey, log, |old(log)|, |log|, old(Loaded()), old(Commits()))
        invariant disk.manifest == old(disk).manifest && disk.temporaries == old(disk).temporaries
        invariant entries <= disk.generations.Keys
        invariant disk.generations == Spared(old(disk).generations, active, previous, entries)
        decreases entries
      {
        var entry :| entry in entries;
        SparedStep(old(disk).generations, active, previous, entries, entry);
        entries := entries - {entry};
        if entry != active && Some(entry) != previous {
          if failsAfter == Some(deleted) { return; }
          deleted := deleted + 1;
          SameLoad(formats, profileKey, disk, disk.(generations := disk.generations - {entry}));
          DeleteGeneration(entry);
        }
      }
    }

    method StageGeneration(a: Activation, g: Generation)
      requires Valid() && g !in disk.generations && GenerationTemporary(g) !in disk.temporaries
      modifies this
      ensures Valid() && old(log) <= log && Commits() == old(Commits()) && Loaded() == old(Loaded())
      ensures disk == WrittenGeneration(old(disk), a, g)
      ensures Loads(formats, profileKey, log, |old(log)|, |log|, old(Loaded()), old(Commits()))
    {
      WriteExclusive(GenerationTemporary(g), GenerationFile(EncodeGeneration(a)));
      RenameGeneration(g);
      assert disk.temporaries == old(disk.temporaries);
    }

    method CommitActivation(a: Activation, g: Generation, random: nat)
      returns (previous: Option<Generation>, ghost commit: nat)
      requires Valid() && a.profileKey == profileKey && ManifestTemporary(random) !in disk.temporaries
      requires g in disk.generations && disk.generations[g] == GenerationFile(EncodeGeneration(a))
      modifies this
      ensures previous == ActiveOf(profileKey, old(disk)) && log != [] && disk == log[|log| - 1].disk
      ensures Published(formats, profileKey, old(log), log, a, g, commit)
    {
      var current := ReadManifestFile();
      var manifest := ActivatedManifest(current, a, g);
      previous := manifest.previousGeneration;
      commit := CommitManifest(manifest, random, Commits() + 1);
      CommitPublishes(formats, profileKey, old(log), log, a, g, commit);
    }

    method Publish(a: Activation, g: Generation, random: nat)
      returns (previous: Option<Generation>, ghost commit: nat)
      requires Valid() && a.profileKey == profileKey && g !in disk.generations
      requires GenerationTemporary(g) !in disk.temporaries && ManifestTemporary(random) !in disk.temporaries
      modifies this
      ensures previous == ActiveOf(profileKey, old(disk)) && log != [] && disk == log[|log| - 1].disk
      ensures Published(formats, profileKey, old(log), log, a, g, commit)
    {
      StageGeneration(a, g);
      ghost var staged := log;
      previous, commit := CommitActivation(a, g, random);
      PublishedFromStaged(formats, profileKey, old(log), staged, log, a, g, commit);
    }

    /**
      Up to the manifest's rename every intermediate disk loads what was there before, from it
      on every one loads this activation; an activation or facts the manifest cannot carry
      leave a disk that does not load at all.
     */
    method Activate(a: Activation, g: Generation, random: nat, pruneFailsAfter: Option<nat>) returns (ghost commit: nat)
      requires Valid() && a.profileKey == profileKey && g !in disk.generations
      requires GenerationTemporary(g) !in disk.temporaries && ManifestTemporary(random) !in disk.temporaries
      modifies this
      ensures Performed(formats, profileKey, old(log), log, Activating(a), commit)
      ensures log[commit] == Moment(CommittedActivation(old(disk), a, g), old(Commits()) + 1)
      ensures Storable(a) ==> Valid() && Loaded() == Ok(ActivatedState(formats, a))
      ensures !Storable(a) ==> Loaded() == Invalid
      ensures pruneFailsAfter.None? ==> disk == CompletedActivation(old(disk), a, g)
    {
      var previous;
      previous, commit := Publish(a, g, random);
      ghost var published := log;
      PublishedMeans(formats, old(disk), a, g);
      PruneGenerations(g, previous, pruneFailsAfter);
      ActivationPerformed(formats, profileKey, old(log), published, log, a, g, commit);
    }

    /** One synchronisation ends in one of the four operations; the random names are new. */
    method Perform(op: Operation, g: Generation, random: nat, pruneFailsAfter: Option<nat>) returns (ghost commit: nat)
      requires Valid() && (op.Activating? ==> op.activation.profileKey == profileKey)
      requires g !in disk.generations && GenerationTemporary(g) !in disk.temporaries
      requires ManifestTemporary(random) !in disk.temporaries
      modifies this
      ensures Performed(formats, profileKey, old(log), log, op, commit)
      ensures Accepted(op) ==> Valid()
    {
      match op
      case Activating(a) => commit := Activate(a, g, random, pruneFailsAfter);
      case Disabling(facts) => commit := MarkDisabled(facts, random);
      case Failing(facts) => commit := RecordFailure(facts, random);
      case Unchanging(facts, etag) =>
        var done;
        done, commit := RecordUnchanged(facts, etag, random);
    }
  }
}
