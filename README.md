# ROOT histogram viewer — verified model of its decision logic

`root_4.C` is a small CERN ROOT GUI: a main frame with a file-path entry, a
"Search" button that opens a file dialog, a check box "This is C++ script!"
and a plot button. Pressing the plot button checks the path, then either runs
the file as a C++ macro through ROOT's interpreter and shows the newest
histogram it made, or opens the file as a ROOT file and shows the first
histogram stored in it. Before a new histogram is shown, the old ones are
deleted from ROOT's global object list.

This project models that decision logic in Dafny, with the ROOT framework
replaced by abstract state and by inputs:

- `paths.dfy`, module `PathRules`: the path check (`ValidateFilePath`) and the
  file-name suffix rule that sets the check box after browsing (`DoBrowse`).
  These are pure functions over strings.
- `registry.dfy`, module `Registry`: ROOT's object list is a `seq<Obj>`. Each
  object has an identity and an `isTH1` tag that stands for
  `InheritsFrom("TH1")`. A file's keys are a `seq<Key>`, each with a class name
  and the result of `ReadObj`. The module holds the filter done by
  `CleanupPreviousHistograms` (`Cleaned`) and the two searches of
  `DoPlot` (`LastHist`, `FirstHistKeyRead`), with the methods that run
  those searches as loops.
- `viewer.dfy`, module `Viewer`:
  - `RootGlobals` (a class) holds gROOT's object list, the batch flag and
    `gErrorIgnoreLevel`.
  - `MainFrame` (a class) holds the entry text, the check box, `fHist`, the
    window title and a reference to the globals. Its methods are `DoBrowse`,
    `CleanupPreviousHistograms` and `DoPlot`. The cleanup's collecting loop
    is the method `Registry.CollectStaleIds`, and its removal loop stays in
    the frame's method. `DoPlot`'s two branches are the methods `PlotScript`
    and `PlotFile`.
  - `PlotSpec` is a pure state transition that `DoPlot` is proved to
    implement. The lemmas about `PlotSpec` state what one press of the plot
    button does.

The framework's answers for one plot attempt are an `Env` value:

- whether the path exists;
- whether the file opens and is not a zombie;
- the file's keys;
- the interpreter's error code;
- the objects the script appends to the object list;
- the batch flag and error-ignore level the script leaves behind.

The message boxes become the `Outcome` of `DoPlot`.

Identities of live objects are distinct, and the displayed histogram, when
it is in the list, is a histogram there (`MainFrame.Valid`, built on
`Registry.WellFormed`). Under that invariant, `TList::Remove` (drop the first
entry with that identity) is proved equal to removing every entry with that
identity. This makes the source's two loops (collect the stale histograms,
then remove each one) equal to the filter `Cleaned`. Deleting an object is
modelled as unlinking it from the global list.

Two details of the code are worth knowing:

- The file branch accepts a key only when its class name is exactly one of
  `TH1F`, `TH1D`, `TH1I`, `TH2F`, `TH2D`, `TH2I`, `TH3F`, `TH3D` or `TH3I`
  (`root_4.C:345-353`). Keys of other histogram classes, such as `TH1S` or
  `TProfile`, are skipped.
- The comment at `root_4.C:268` says the object list is walked in reverse.
  The loop at `root_4.C:269-274` walks it forward and keeps the last match.
  The model follows the loop. `ScriptSelectsLastCreated` proves that the
  match is the last histogram the script appended, because the cleanup
  before the run leaves no histogram in the list.

## Model

| member | source | states |
|---|---|---|
| `PathRules.ValidatePath` | root_4.C:106-124 | accepted exactly when the path is non-empty and has no backslash, double quote or single quote; refused as empty exactly when it is empty (so the empty check wins); refused for a character exactly when one of the three occurs |
| `PathRules.AcceptedConcat` | root_4.C:117-121 | two non-empty pieces joined are acceptable exactly when each piece is |
| `PathRules.EndsWithIff` | root_4.C:178-180 | the suffix test holds exactly when the name is some string followed by the suffix |
| `PathRules.ScriptFlagAfter` | root_4.C:176-182 | definition of the box state after a file is chosen; the box changes only for a name with a C++ or `.root` suffix; `ScriptFlagRule` describes it case by case |
| `PathRules.ScriptAndRootNamesDisjoint` | root_4.C:178-182 | no name ends both in `.C`/`.cpp`/`.cxx` and in `.root`, so the `else if` order never decides |
| `PathRules.ScriptFlagRule` | root_4.C:176-182 | a C++ suffix turns the box on, `.root` turns it off, any other name leaves it as it was |
| `PathRules.ScriptFlagIdempotent` | root_4.C:176-182 | choosing the same file again sets the box as choosing it once |
| `Registry.FindLastHistogram` | root_4.C:262-274 | the forward scan returns the last histogram in list order, none if there is none |
| `Registry.FindFirstHistogramKey` | root_4.C:340-357 | the scan that breaks at the first key of one of the nine classes returns that key's `ReadObj` result |
| `Registry.StaleIds` | root_4.C:136-141 | definition of what the cleanup's first loop collects, at most one identity per entry; `StaleIdsSpec` says which |
| `Registry.CollectStaleIds` | root_4.C:136-141 | the cleanup's first loop returns exactly `StaleIds` of the list |
| `Registry.Cleaned` | root_4.C:126-149 | definition of the cleanup's result, never longer than the list and made of its objects; `CleanedSpec` and `RemoveStaleIsCleaned` describe it in full |
| `Registry.RemoveFirst` | root_4.C:146 | definition of `TList::Remove`: the list loses exactly one entry when the identity is present and none otherwise, and gains nothing; `RemoveFirstDistinct` relates it to removing every entry with that identity |
| `Registry.Survivors` | root_4.C:228-235 | definition of the list after cleanup and deleting `fHist`: every survivor is a non-histogram object of the old list; `SurvivorsHaveNoHistogram` says which objects stay |
| `Registry.LastHist` | root_4.C:269-274 | definition of the script branch's search: a found identity is that of a histogram in the list; `LastHistSpec` says which one |
| `Registry.FirstHistKeyRead` | root_4.C:344-357 | definition of the file branch's search: a found object was read from a key of one of the nine classes; `FirstHistKeySpec` says which key |
| `Registry.CleanedSpec` | root_4.C:126-149 | after cleanup no histogram other than the kept one remains, every non-histogram object and the kept one remain, and the survivors keep their relative order |
| `Registry.StaleIdsSpec` | root_4.C:136-141 | the first loop collects exactly the identities of the histograms other than `fHist` |
| `Registry.RemoveFirstDistinct` | root_4.C:146 | with distinct identities, `TList::Remove` removes every entry with that identity |
| `Registry.RemoveStaleIsCleaned` | root_4.C:143-148 | removing the collected identities one by one gives the cleanup filter |
| `Registry.CleanedDistinct` | root_4.C:126-149 | cleanup keeps identities distinct |
| `Registry.CleanedWellFormed` | root_4.C:126-149 | cleanup keeps the list invariant: distinct identities, and an entry with `fHist`'s identity is a histogram |
| `Registry.RemoveIdsWellFormed` | root_4.C:146-147 | deleting objects keeps the list invariant |
| `Registry.LastHistWellFormed` | root_4.C:289-290 | displaying the last histogram found meets the list invariant |
| `Registry.LastHistSpec` | root_4.C:268-276 | the search finds a histogram with no histogram after it, and finds none exactly when the list has no histogram |
| `Registry.LastHistAfterClean` | root_4.C:262-274 | objects before the script's objects that are not histograms do not change the search result |
| `Registry.FirstHistKeySpec` | root_4.C:344-360 | the search returns exactly what reading the first key of the nine classes yields, a successful read included; with no such key nothing is found; a found histogram always comes from that key |
| `Registry.FirstHistKeyStops` | root_4.C:354-355 | keys after the first histogram-class key do not affect the result |
| `Registry.SurvivorsHaveNoHistogram` | root_4.C:228-235 | cleanup followed by deleting `fHist` leaves no histogram, keeps only objects of the old list, and keeps every non-histogram object (under the list invariant; without it, every one whose identity is not `fHist`'s) |
| `Viewer.PlotSpec` | root_4.C:186-395 | definition of one press of the plot button as a state transition: the path is refused exactly when the path check fails, and a plot displays the histogram it reports; the `Viewer` lemmas below describe each branch, and `MainFrame.DoPlot` implements it |
| `Viewer.PlotRefusedChangesNothing` | root_4.C:188-191 | a refused path changes nothing; the reason is "empty" for an empty path and "character" otherwise |
| `Viewer.PlotKeepsGlobals` | root_4.C:221-245 | on every path the batch flag and error-ignore level end as they started; the entry and box are untouched |
| `Viewer.PlotKeepsWellFormed` | root_4.C:186-395 | every plot attempt keeps the list invariant, given that the script's objects and the file's reads are new objects |
| `Viewer.ScriptFailureClearsHist` | root_4.C:232-287 | a failed run or a run with no histogram leaves `fHist` null (it was cleared before the run) and the title unchanged; the failure is reported as a script error exactly when the code is non-zero |
| `Viewer.ScriptSelectsLastCreated` | root_4.C:262-287 | after an error-free run, "no histogram" happens exactly when the script made none; otherwise the shown histogram is the last one the script appended |
| `Viewer.ScriptSuccessRegistry` | root_4.C:289-293 | in a state meeting the list invariant, after a successful run the shown histogram is in the list, it is the only histogram there, and every non-histogram object from before and from the script remains |
| `Viewer.FileFailureChangesNothing` | root_4.C:315-372 | in the file branch a missing file, an unreadable file or a file with no histogram leaves the whole state unchanged |
| `Viewer.FileSelectsFirstKey` | root_4.C:340-379 | a readable file is plotted with histogram v exactly when the first key of the nine classes reads as v; the list then holds no histogram and keeps every non-histogram object |
| `Viewer.PlotSuccess` | root_4.C:289-390 | on success `fHist` is the selected histogram, the title is the branch's fixed prefix followed by the file name, and no other histogram is in the list |
| `Viewer.MainFrame.constructor` | root_4.C:43-97 | the frame starts with entry `../example.C`, the box down, no histogram and the base title |
| `Viewer.MainFrame.DoBrowse` | root_4.C:151-184 | a cancelled dialog changes nothing; otherwise the name is copied into the entry and the box follows the suffix rule |
| `Viewer.MainFrame.CleanupPreviousHistograms` | root_4.C:126-149 | the two loops turn the global list into the cleanup filter of its old value, keep identities distinct, and change nothing else |
| `Viewer.MainFrame.DeleteObject` | root_4.C:232-235 | deleting an object unlinks it from the global list |
| `Viewer.MainFrame.DoPlot` | root_4.C:186-395 | the new frame and global state and the outcome are those of `PlotSpec`; when the script runs, it starts with batch on and the error-ignore level at `kError` (3000), and both are restored afterwards whatever the script leaves |
| `Viewer.MainFrame.DiscardHistograms` | root_4.C:228-235 | cleanup followed by deleting the displayed histogram turns the list into the survivors of its old value, leaves nothing displayed and keeps the list invariant |
| `Viewer.MainFrame.PlotScript` | root_4.C:197-310 | the script branch: the new state and outcome are those of `PlotSpec`; when the script exists it starts with batch on and the error-ignore level at `kError` (3000) |
| `Viewer.MainFrame.PlotFile` | root_4.C:312-395 | the ROOT-file branch: the new state and outcome are those of `PlotSpec` |

## Left out

- `demo1.cpp`: it only draws a function on a canvas and prints a PDF, with no logic of its own.
- Widget construction, layout and signal/slot `Connect` wiring in the constructor (`root_4.C:43-97`). Only the initial entry text, box state, `fHist` and title are modelled.
- The destructor `~MyMainFrame`: it is framework cleanup.
- Message boxes and `printf` logging: these are I/O. Each message box becomes an `Outcome` value.
- `gSystem->AccessPathName`, `TFile::Open`/`IsZombie`, `TKey::ReadObj` and `Close`: these are file I/O. Their answers are fields of `Env`.
- `gROOT->ProcessLine`: this is the framework's interpreter. It is modelled as an error code plus objects appended to the list, plus the globals the script leaves. A script that removes or reorders existing objects is not modelled.
- Canvas `cd`/`Clear`/`Draw`/`Update` and the `gPad` save and restore: these are graphics.
- ROOT ownership: deletion is modelled as removal from the global list. In ROOT a histogram read from a file belongs to that file's directory, so it is not added to the global list. Closing the file at `root_4.C:393-394` destroys that histogram and leaves `fHist` dangling; object lifetime is not modelled, so the model cannot show this.
- `InheritsFrom("TH1")`: the class-hierarchy lookup is replaced by the `isTH1` tag on each object.
- `Viewer.MainFrame.DoPlot`: requires that the objects a script creates have identities distinct from each other and from the objects still alive when it starts, and that an object read from a file key is not an object already in the list. This is what fresh allocation guarantees.
