/** The histogram viewer's main frame: browsing for a file, cleaning up old
    histograms, and plotting either the newest histogram a C++ script makes or
    the first histogram stored in a ROOT file. The ROOT framework is replaced
    by its observable state (the global object list, the batch flag and the
    error-ignore level) and by its answers, which the caller supplies. */
module Viewer {
  import opened PathRules
  import opened Registry

  /** ROOT's gErrorIgnoreLevel value kError (TError.h). */
  const ErrorLevel: int := 3000

  /** Window titles. */
  const BaseTitle: string := "ROOT直方图查看器"
  const ScriptTitlePrefix: string := "ROOT直方图查看器 - 脚本: "
  const FileTitlePrefix: string := "ROOT直方图查看器 - "

  /** The text the file entry starts with. */
  const DefaultEntry: string := "../example.C"

  /** The framework's answers during one press of the plot button. */
  datatype Env = Env(
    pathExists: bool,       // gSystem->AccessPathName(filename) returned false
    fileOpens: bool,        // TFile::Open gave a file that is not a zombie
    keys: seq<Key>,         // that file's list of keys, in order
    scriptError: int,       // the error code ProcessLine reports
    created: seq<Obj>,      // objects the script appends to the object list
    scriptBatch: bool,      // the batch flag as the script leaves it
    scriptErrorLevel: int)  // the error-ignore level as the script leaves it

  /** How a press of the plot button ends. Every outcome except the two
      Plotted ones is reported to the user in a message box. */
  datatype Outcome =
    | Refused(error: PathError)
    | ScriptMissing
    | ScriptFailed(code: int)
    | NoHistogramCreated
    | FileMissing
    | FileUnreadable
    | NoHistogramInFile
    | PlottedScript(hist: ObjId)
    | PlottedFile(hist: ObjId)
  {
    predicate Plotted() {
      PlottedScript? || PlottedFile?
    }
  }

  /** The globals as the interpreter finds them when the script starts. */
  datatype Globals = Globals(batch: bool, errorLevel: int)

  /** Everything the plot button can change or read from the frame and the framework. */
  datatype FrameState = FrameState(
    entry: string,
    isScript: bool,
    hist: Option<ObjId>,
    title: string,
    registry: seq<Obj>,
    batch: bool,
    errorLevel: int)

  datatype Step = Step(after: FrameState, outcome: Outcome)

  /** A plot attempt gets as far as running the script. */
  predicate ReachesInterpreter(s: FrameState, env: Env) {
    ValidatePath(s.entry).Accepted? && s.isScript && env.pathExists
  }

  /** What one press of the plot button does, as a state transition. */
  function PlotSpec(s: FrameState, env: Env): (r: Step)
    ensures r.outcome.Refused? <==> ValidatePath(s.entry).Rejected?
    ensures r.outcome.Plotted() ==> r.after.hist == Some(r.outcome.hist)
  {
    match ValidatePath(s.entry)
    case Rejected(e) => Step(s, Refused(e))
    case Accepted =>
      if s.isScript then
        if !env.pathExists then Step(s, ScriptMissing)
        else
          var ran := Survivors(s.registry, s.hist) + env.created;
          var cleared := s.(hist := None, registry := ran);
          if env.scriptError != 0 then Step(cleared, ScriptFailed(env.scriptError))
          else
            match LastHist(ran)
            case None => Step(cleared, NoHistogramCreated)
            case Some(h) =>
              Step(cleared.(hist := Some(h), registry := Cleaned(ran, Some(h)),
                            title := ScriptTitlePrefix + s.entry),
                   PlottedScript(h))
      else if !env.pathExists then Step(s, FileMissing)
      else if !env.fileOpens then Step(s, FileUnreadable)
      else
        match FirstHistKeyRead(env.keys)
        case None => Step(s, NoHistogramInFile)
        case Some(h) =>
          Step(s.(hist := Some(h), registry := Survivors(s.registry, s.hist),
                  title := FileTitlePrefix + s.entry),
               PlottedFile(h))
  }

  /** The objects a script creates are new: their identities are distinct from
      each other and from those of the objects still alive when it starts. */
  predicate FreshObjects(created: seq<Obj>, live: seq<Obj>) {
    DistinctIds(created) && forall o | o in created :: o.id !in Ids(live)
  }

  /** What a file's keys read are new objects, never one still alive. */
  predicate FreshReads(keys: seq<Key>, live: seq<Obj>) {
    forall k | k in keys && k.read.Some? :: k.read.value !in Ids(live)
  }

  // ---------------------------------------------------------------------------
  // Properties of a plot attempt.

  /** The objects a script run leaves in the list keep the invariant, both
      before and after the run's cleanup around the histogram it selects. */
  lemma ScriptRunWellFormed(reg: seq<Obj>, hist: Option<ObjId>, created: seq<Obj>)
    requires WellFormed(reg, hist)
    requires FreshObjects(created, Survivors(reg, hist))
    ensures DistinctIds(Survivors(reg, hist) + created)
    ensures var ran := Survivors(reg, hist) + created;
      LastHist(ran).Some? ==> WellFormed(Cleaned(ran, LastHist(ran)), LastHist(ran))
  {
    var survivors := Survivors(reg, hist);
    CleanedWellFormed(reg, hist);
    RemoveIdsWellFormed(Cleaned(reg, hist), hist, IdsOf(hist));
    var ran := survivors + created;
    AppendDistinct(survivors, created);
    if LastHist(ran).Some? {
      LastHistWellFormed(ran);
      CleanedWellFormed(ran, LastHist(ran));
    }
  }

  /** Displaying a histogram read from a file, once the old ones are gone,
      keeps the invariant when the read object is new. */
  lemma FileReadWellFormed(reg: seq<Obj>, hist: Option<ObjId>, keys: seq<Key>)
    requires WellFormed(reg, hist)
    requires FreshReads(keys, reg)
    ensures FirstHistKeyRead(keys).Some? ==> WellFormed(Survivors(reg, hist), FirstHistKeyRead(keys))
  {
    var survivors := Survivors(reg, hist);
    CleanedWellFormed(reg, hist);
    RemoveIdsWellFormed(Cleaned(reg, hist), hist, IdsOf(hist));
    if FirstHistKeyRead(keys).Some? {
      FirstHistKeySpec(keys);
      var k :| IsFirstHistKey(keys, k) && keys[k].read == FirstHistKeyRead(keys);
      assert keys[k] in keys;
      var h := FirstHistKeyRead(keys).value;
      assert h !in Ids(reg);
      SurvivorsHaveNoHistogram(reg, hist);
      assert forall o | o in survivors :: o.id in Ids(reg);
    }
  }

  /** A plot attempt keeps the object-list invariant, given that the objects
      the framework hands over (the script's, the file's) are new. */
  lemma PlotKeepsWellFormed(s: FrameState, env: Env)
    requires WellFormed(s.registry, s.hist)
    requires FreshObjects(env.created, Survivors(s.registry, s.hist))
    requires FreshReads(env.keys, s.registry)
    ensures WellFormed(PlotSpec(s, env).after.registry, PlotSpec(s, env).after.hist)
  {
    ScriptRunWellFormed(s.registry, s.hist, env.created);
    FileReadWellFormed(s.registry, s.hist, env.keys);
  }

  /** A refused path changes nothing and reports only the first reason that applies. */
  lemma PlotRefusedChangesNothing(s: FrameState, env: Env)
    requires ValidatePath(s.entry).Rejected?
    ensures PlotSpec(s, env).after == s
    ensures PlotSpec(s, env).outcome == Refused(if s.entry == [] then EmptyPath else ForbiddenChar)
  {
  }

  /** Whatever the path and the script do, the entry, the check box, the batch
      flag and the error-ignore level are as before. */
  lemma PlotKeepsGlobals(s: FrameState, env: Env)
    ensures PlotSpec(s, env).after.entry == s.entry
    ensures PlotSpec(s, env).after.isScript == s.isScript
    ensures PlotSpec(s, env).after.batch == s.batch
    ensures PlotSpec(s, env).after.errorLevel == s.errorLevel
  {
  }

  /** A failed script run, or one that made no histogram, leaves no histogram
      displayed and the title as it was. */
  lemma ScriptFailureClearsHist(s: FrameState, env: Env)
    requires ReachesInterpreter(s, env)
    requires !PlotSpec(s, env).outcome.Plotted()
    ensures PlotSpec(s, env).after.hist == None
    ensures PlotSpec(s, env).after.title == s.title
    ensures PlotSpec(s, env).outcome == ScriptFailed(env.scriptError) <==> env.scriptError != 0
  {
  }

  /** A script that ran without error fails for lack of a histogram exactly
      when it created none; otherwise the one shown is the last it created. */
  lemma ScriptSelectsLastCreated(s: FrameState, env: Env)
    requires ReachesInterpreter(s, env) && env.scriptError == 0
    ensures PlotSpec(s, env).outcome == NoHistogramCreated <==> forall o | o in env.created :: !o.isTH1
    ensures PlotSpec(s, env).outcome.PlottedScript? ==>
      Some(PlotSpec(s, env).outcome.hist) == LastHist(env.created)
  {
    SurvivorsHaveNoHistogram(s.registry, s.hist);
    LastHistAfterClean(Survivors(s.registry, s.hist), env.created);
    LastHistSpec(env.created);
  }

  /** After a successful script run the object list holds the displayed
      histogram, no other histogram, and every non-histogram object from
      before and from the script. */
  lemma ScriptSuccessRegistry(s: FrameState, env: Env)
    requires WellFormed(s.registry, s.hist)
    requires PlotSpec(s, env).outcome.PlottedScript?
    ensures var a := PlotSpec(s, env).after;
      (exists o | o in a.registry :: o.isTH1 && o.id == PlotSpec(s, env).outcome.hist) &&
      OnlyHistogram(a.registry, a.hist) &&
      (forall o | o in s.registry && !o.isTH1 :: o in a.registry) &&
      (forall o | o in env.created && !o.isTH1 :: o in a.registry)
  {
    var survivors := Survivors(s.registry, s.hist);
    var ran := survivors + env.created;
    var h := PlotSpec(s, env).outcome.hist;
    var a := PlotSpec(s, env).after;
    assert LastHist(ran) == Some(h);
    assert a.registry == Cleaned(ran, Some(h)) && a.hist == Some(h);
    LastHistSpec(ran);
    var k :| 0 <= k < |ran| && ran[k].isTH1 && ran[k].id == h &&
      forall j | k < j < |ran| :: !ran[j].isTH1;
    CleanedSpec(ran, Some(h));
    assert ran[k] in ran;
    assert ran[k] in a.registry;
    SurvivorsHaveNoHistogram(s.registry, s.hist);
    forall o | o in s.registry && !o.isTH1
      ensures o in a.registry
    {
      assert o in survivors;
      assert o in ran;
    }
    forall o | o in env.created && !o.isTH1
      ensures o in a.registry
    {
      assert o in ran;
    }
  }

  /** In the file branch every failure leaves the whole state as it was. */
  lemma FileFailureChangesNothing(s: FrameState, env: Env)
    requires !s.isScript
    requires !PlotSpec(s, env).outcome.Plotted()
    ensures PlotSpec(s, env).after == s
  {
  }

  /** A readable file is plotted with histogram v exactly when the first key of
      a histogram class reads as v. Afterwards no histogram is left in the
      object list and every other object is kept. */
  lemma FileSelectsFirstKey(s: FrameState, env: Env, v: ObjId)
    requires WellFormed(s.registry, s.hist)
    requires ValidatePath(s.entry).Accepted? && !s.isScript && env.pathExists && env.fileOpens
    ensures PlotSpec(s, env).outcome == PlottedFile(v) <==>
      exists k | IsFirstHistKey(env.keys, k) :: env.keys[k].read == Some(v)
    ensures PlotSpec(s, env).outcome.PlottedFile? ==>
      (forall o | o in PlotSpec(s, env).after.registry :: !o.isTH1) &&
      (forall o | o in s.registry && !o.isTH1 :: o in PlotSpec(s, env).after.registry)
  {
    FirstHistKeySpec(env.keys);
    SurvivorsHaveNoHistogram(s.registry, s.hist);
  }

  /** On success in either branch the selected histogram is displayed, the title
      is the branch's prefix followed by the file name, and no other histogram
      remains in the object list. */
  lemma PlotSuccess(s: FrameState, env: Env)
    requires PlotSpec(s, env).outcome.Plotted()
    ensures PlotSpec(s, env).after.hist == Some(PlotSpec(s, env).outcome.hist)
    ensures PlotSpec(s, env).after.title ==
      (if s.isScript then ScriptTitlePrefix else FileTitlePrefix) + s.entry
    ensures OnlyHistogram(PlotSpec(s, env).after.registry, PlotSpec(s, env).after.hist)
  {
    if s.isScript {
      CleanedSpec(Survivors(s.registry, s.hist) + env.created, PlotSpec(s, env).after.hist);
    } else {
      SurvivorsHaveNoHistogram(s.registry, s.hist);
    }
  }

  // ---------------------------------------------------------------------------
  // The framework's global state and the main frame.

  /** gROOT's object list, gROOT's batch flag and gErrorIgnoreLevel. */
  class RootGlobals {
    var list: seq<Obj>
    var batch: bool
    var errorIgnoreLevel: int

    constructor (list: seq<Obj>, batch: bool, errorIgnoreLevel: int)
      ensures this.list == list && this.batch == batch && this.errorIgnoreLevel == errorIgnoreLevel
    {
      this.list := list;
      this.batch := batch;
      this.errorIgnoreLevel := errorIgnoreLevel;
    }
  }

  class MainFrame {
    var entry: string        // the file entry's text
    var isScript: bool       // the check box is down
    var hist: Option<ObjId>  // the histogram on display
    var title: string        // the window name
    const root: RootGlobals

    /** Live objects in the global list have distinct identities, and the
        displayed histogram, when it is in the list, is a histogram there. */
    ghost predicate Valid()
      reads this, root
    {
      WellFormed(root.list, hist)
    }

    ghost function State(): FrameState
      reads this, root
    {
      FrameState(entry, isScript, hist, title, root.list, root.batch, root.errorIgnoreLevel)
    }

    /** The frame as built: default entry, box down, nothing displayed. */
    constructor (root: RootGlobals)
      requires DistinctIds(root.list)
      ensures Valid() && this.root == root
      ensures entry == DefaultEntry && isScript && hist == None && title == BaseTitle
    {
      this.root := root;
      entry := DefaultEntry;
      isScript := true;
      hist := None;
      title := BaseTitle;
    }

    /** The browse button: chosen is the dialog's file name, None when the
        dialog was cancelled. */
    method DoBrowse(chosen: Option<string>)
      modifies this`entry, this`isScript
      ensures chosen.None? ==> entry == old(entry) && isScript == old(isScript)
      ensures chosen.Some? ==> entry == chosen.value && isScript == ScriptFlagAfter(chosen.value, old(isScript))
    {
      if chosen.Some? {
        entry := chosen.value;
        var filename := chosen.value;
        if EndsWith(filename, ".C") || EndsWith(filename, ".cpp") || EndsWith(filename, ".cxx") {
          isScript := true;
        } else if EndsWith(filename, ".root") {
          isScript := false;
        }
      }
    }

    /** Delete every histogram of the global list except the one on display;
        other objects stay, in their order. */
    method CleanupPreviousHistograms()
      requires Valid()
      modifies root`list
      ensures Valid()
      ensures root.list == Cleaned(old(root.list), hist)
    {
      var list := root.list;
      var objectsToDelete := CollectStaleIds(list, hist);
      RemoveNoIds(list);
      assert Elems(objectsToDelete[..0]) == {};
      var j := 0;
      while j < |objectsToDelete|
        invariant 0 <= j <= |objectsToDelete|
        invariant root.list == RemoveIds(list, Elems(objectsToDelete[..j]))
        invariant DistinctIds(root.list)
      {
        var obj := objectsToDelete[j];
        RemoveFirstDistinct(root.list, obj);
        RemoveIdsTwice(list, Elems(objectsToDelete[..j]), {obj});
        ElemsPrefix(objectsToDelete, j);
        RemoveIdsDistinct(root.list, {obj});
        root.list := RemoveFirst(root.list, obj);
        j := j + 1;
      }
      assert objectsToDelete[..j] == objectsToDelete;
      RemoveStaleIsCleaned(list, hist);
      CleanedWellFormed(list, hist);
    }

    /** Deleting an object unlinks it from the global list. */
    method DeleteObject(id: ObjId)
      requires Valid()
      modifies root`list
      ensures Valid()
      ensures root.list == RemoveIds(old(root.list), {id})
    {
      RemoveFirstDistinct(root.list, id);
      RemoveIdsWellFormed(root.list, hist, {id});
      root.list := RemoveFirst(root.list, id);
    }

    /** Delete the old histograms and the one on display; nothing is displayed
        afterwards. */
    method DiscardHistograms()
      requires Valid()
      modifies this`hist, root`list
      ensures Valid() && hist == None
      ensures root.list == Survivors(old(root.list), old(hist))
    {
      CleanupPreviousHistograms();
      if hist.Some? {
        DeleteObject(hist.value);
        hist := None;
      } else {
        RemoveNoIds(root.list);
      }
    }

    /** The plot button. The ghost result records the globals the script
        starts under, when it gets to run. */
    method DoPlot(env: Env) returns (outcome: Outcome, ghost started: Option<Globals>)
      requires Valid()
      requires FreshObjects(env.created, Survivors(root.list, hist))
      requires FreshReads(env.keys, root.list)
      modifies this, root
      ensures Valid()
      ensures State() == PlotSpec(old(State()), env).after
      ensures outcome == PlotSpec(old(State()), env).outcome
      ensures started == if ReachesInterpreter(old(State()), env) then Some(Globals(true, ErrorLevel)) else None
    {
      PlotKeepsWellFormed(State(), env);
      started := None;
      var check := ValidatePath(entry);
      if check.Rejected? {
        outcome := Refused(check.error);
        return;
      }
      var filename := entry;
      if isScript {
        outcome, started := PlotScript(env, filename);
      } else {
        outcome := PlotFile(env, filename);
      }
    }

    /** The script branch of the plot button. */
    method PlotScript(env: Env, filename: string) returns (outcome: Outcome, ghost started: Option<Globals>)
      requires Valid() && ValidatePath(entry).Accepted? && isScript && filename == entry
      requires FreshObjects(env.created, Survivors(root.list, hist))
      modifies this, root
      ensures State() == PlotSpec(old(State()), env).after
      ensures outcome == PlotSpec(old(State()), env).outcome
      ensures started == if env.pathExists then Some(Globals(true, ErrorLevel)) else None
    {
      started := None;
      if !env.pathExists {
        outcome := ScriptMissing;
        return;
      }
      var oldBatch := root.batch;
      root.batch := true;
      var oldErrorLevel := root.errorIgnoreLevel;
      root.errorIgnoreLevel := ErrorLevel;

      DiscardHistograms();

      // The script runs: it appends its objects and may change the globals.
      started := Some(Globals(root.batch, root.errorIgnoreLevel));
      AppendDistinct(root.list, env.created);
      root.list := root.list + env.created;
      root.batch := env.scriptBatch;
      root.errorIgnoreLevel := env.scriptErrorLevel;

      root.errorIgnoreLevel := oldErrorLevel;
      root.batch := oldBatch;

      if env.scriptError != 0 {
        outcome := ScriptFailed(env.scriptError);
        return;
      }
      var newHist := FindLastHistogram(root.list);
      if newHist.None? {
        outcome := NoHistogramCreated;
        return;
      }
      LastHistWellFormed(root.list);
      hist := newHist;
      CleanupPreviousHistograms();
      title := ScriptTitlePrefix + filename;
      outcome := PlottedScript(newHist.value);
    }

    /** The ROOT-file branch of the plot button. */
    method PlotFile(env: Env, filename: string) returns (outcome: Outcome)
      requires Valid() && ValidatePath(entry).Accepted? && !isScript && filename == entry
      modifies this, root
      ensures State() == PlotSpec(old(State()), env).after
      ensures outcome == PlotSpec(old(State()), env).outcome
    {
      if !env.pathExists {
        outcome := FileMissing;
        return;
      }
      if !env.fileOpens {
        outcome := FileUnreadable;
        return;
      }
      var newHist := FindFirstHistogramKey(env.keys);
      if newHist.None? {
        outcome := NoHistogramInFile;
        return;
      }
      DiscardHistograms();
      hist := newHist;
      title := FileTitlePrefix + filename;
      outcome := PlottedFile(newHist.value);
    }
  }
}
