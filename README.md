# Merge As Frames — a Dafny model

The Merge As Frames plugin for the nanome molecular workspace merges several
selected workspace entries ("complexes") into one new entry whose frames are
the molecules of the selected entries once each entry is converted to frames.
When the user presses Run, it:

1. asks the host for the complex list;
2. keeps the indices of the selected entries, in list order;
3. warns and stops when fewer than two are selected;
4. otherwise fetches the selected entries in full;
5. builds a new entry named `"Merged " + first.name` at the first entry's
   position and rotation;
6. for every fetched entry: converts it to frames, clears its selection,
   aligns it onto the first entry when "Align Coordinates" is on and it is not
   the first, and appends its molecules to the new entry;
7. publishes the new entry;
8. when "Delete Entries" is on, removes the fetched entries.

The model has three modules:

- `Structure` (`structure.dfy`) holds the structure values the plugin reads and
  builds:
  - `Complex` and `Molecule`, `Vector3` and `Quaternion`;
  - the structure operations the plugin calls: a new complex,
    `set_all_selected`, `add_molecule`.
- `Runtime` (`runtime.dfy`) holds the host side:
  - a `Host` class standing for the plugin's environment. Its methods record
    every host call and every alignment the plugin makes, in order, in an event
    log (`log`). Alignment is a local structure-library computation, not a
    host call, but it is recorded in the same log so that its order relative
    to the host calls is visible;
  - the answers to the two requests: `ShallowList` for the complex list and
    `Fetch` for the full entries.
- `Plugin` (`plugin.dfy`) holds:
  - the plugin class `MergeAsFrames`, with both settings flags, the two toggle
    callbacks and `OnRun`;
  - the functions that specify a run. `RunEvents(workspace, align, delete,
    toFrames)` is the exact list of calls a run makes;
  - the lemmas that state what a run does.

`OnRun` is proved to append exactly `RunEvents(...)` to the event log. Every
property of a run is then proved about `RunEvents` and the functions it is
built from.

`convert_to_frames` is a method of the structure library's `Complex`. The
model keeps it as the uninterpreted function `convertToFrames`, a field of
`Host`. No property depends on what it does.

The merged entry is named `"Merged "` followed by the first fetched entry's
name. It takes that entry's position and rotation
(plugin/MergeAsFrames.py:57-60).

## Model

| member | source | states |
|---|---|---|
| Structure.NewComplex | plugin/MergeAsFrames.py:57 | a freshly constructed complex is not in the workspace (index -1), is unselected and has no molecules |
| Structure.SetAllSelected | plugin/MergeAsFrames.py:64 | every molecule gets the given selection state, in place and in order; nothing else of the complex changes |
| Structure.AddMolecule | plugin/MergeAsFrames.py:68 | the molecule becomes the last molecule of the complex; nothing else changes |
| Runtime.ShallowList | plugin/MergeAsFrames.py:48 | the complex list has one entry per workspace entry, in workspace order, each a copy without molecules |
| Runtime.Fetch | plugin/MergeAsFrames.py:55 | the answer holds one workspace entry per requested index, in request order, each carrying that index |
| Runtime.Host.RequestComplexList | plugin/MergeAsFrames.py:48 | returns the complex list and records one list request |
| Runtime.Host.RequestComplexes | plugin/MergeAsFrames.py:55 | returns the requested entries in full and records the request with its indices |
| Runtime.Host.SendNotification | plugin/MergeAsFrames.py:52 | records one notification of the given kind and text |
| Runtime.Host.AlignTo | plugin/MergeAsFrames.py:66 | records one alignment of the complex onto the reference |
| Runtime.Host.AddToWorkspace | plugin/MergeAsFrames.py:70 | records one publish of exactly the given entries |
| Runtime.Host.RemoveFromWorkspace | plugin/MergeAsFrames.py:73 | records one removal of exactly the given entries |
| Plugin.SelectedIndices | plugin/MergeAsFrames.py:49 | the selection filter; its contract bounds its length by the list's, and SelectedIndicesExact and SelectedIndicesMembership state what it holds |
| Plugin.Selection | plugin/MergeAsFrames.py:48-49 | the selection a run computes: the list request answered with `ShallowList`, then the selection filter; its contract states that every selected index names a workspace entry |
| Plugin.SelectedIndicesExact | plugin/MergeAsFrames.py:49 | the selection is the subsequence of the list made of exactly its selected entries, in list order: each selected index has a strictly increasing list position of a selected entry, and every selected entry has its position among them |
| Plugin.SelectedIndicesMembership | plugin/MergeAsFrames.py:49 | an index is in the selection if and only if some selected list entry carries it |
| Plugin.SelectedAreListed | plugin/MergeAsFrames.py:49-55 | every selected index names an entry of the workspace, so the fetch is always answerable |
| Plugin.AbortSendsOnlyWarning | plugin/MergeAsFrames.py:51-53 | with fewer than two entries selected, a run makes the list request and sends the one warning "Please select multiple entries."; it fetches, publishes and removes nothing |
| Plugin.MergeRequestsThenAligns | plugin/MergeAsFrames.py:48-66 | with two or more selected, a run sends no notification; its first call is the list request and its second the request for exactly the selection; every call between the fetch request and the publish is an alignment call |
| Plugin.Prepared | plugin/MergeAsFrames.py:63-64 | a fetched entry in frame form with every molecule unselected: the converted entry with only the selection flags of its molecules changed, in order |
| Plugin.MergedHeader | plugin/MergeAsFrames.py:57-60 | the new entry before the loop: not yet in the workspace, unselected, no molecules, named "Merged " followed by the first entry's name, at the first entry's position and rotation |
| Plugin.MergedComplex | plugin/MergeAsFrames.py:57-68 | the published entry keeps the header's name, position and rotation; MergedEntryContents, FrameMoleculesCount and FrameMoleculesLayout state what molecules it holds |
| Plugin.RunEvents | plugin/MergeAsFrames.py:47-73 | the calls of one run, beginning with the list request; AbortSendsOnlyWarning, MergeRequestsThenAligns, AlignmentsExact, PublishedEntry and PublishThenDelete state the rest |
| Plugin.FrameMolecules | plugin/MergeAsFrames.py:62-68 | the converted, unselected molecules of the first n fetched entries, in fetch order; FrameMoleculesCount, FrameMoleculesLayout and FrameMoleculesUnselected state them |
| Plugin.Alignments | plugin/MergeAsFrames.py:65-66 | the alignment calls made while the first n fetched entries are processed; AlignmentsExact states them |
| Plugin.FrameMoleculesCount | plugin/MergeAsFrames.py:62-68 | the merged entry holds as many molecules as the converted fetched entries together |
| Plugin.FrameMoleculesLayout | plugin/MergeAsFrames.py:62-68 | molecule j of converted entry k sits at position (molecules of entries 0..k-1) + j of the merged entry, with selection cleared: the molecules are concatenated in fetch order |
| Plugin.FrameMoleculesUnselected | plugin/MergeAsFrames.py:64-68 | no molecule of the merged entry is selected |
| Plugin.AlignmentsExact | plugin/MergeAsFrames.py:62-66 | with alignment on, there is one alignment call per fetched entry but the first, in order, each onto the first fetched entry; with alignment off there is none |
| Plugin.PublishedEntry | plugin/MergeAsFrames.py:62-70 | the publish comes right after the alignment calls, after the whole loop, and publishes exactly the merged entry |
| Plugin.MergedEntryContents | plugin/MergeAsFrames.py:57-68 | the merged entry is named "Merged " followed by the first fetched entry's name; it has that entry's position and rotation; it holds the sum of the converted entries' molecule counts; none of its molecules is selected |
| Plugin.PublishThenDelete | plugin/MergeAsFrames.py:70-73 | a run publishes at most once; a removal happens if and only if deletion is on and two or more were selected; the removal is then the last call, comes right after the publish, and removes exactly the fetched entries |
| Plugin.ThreeEntryRun | plugin/MergeAsFrames.py:47-73 | three selected entries with 2, 1 and 3 converted molecules, no alignment, deletion on: the run is list, fetch of the three indices, one publish, removal of the three. The merged entry holds the six molecules in fetch order |
| Plugin.AppendMolecules | plugin/MergeAsFrames.py:67-68 | appending the molecules one at a time leaves the complex with its old molecules followed by the new ones, in order |
| Plugin.MergeAsFrames.Start | plugin/MergeAsFrames.py:9-10 | both settings start off |
| Plugin.MergeAsFrames.ToggleAlign | plugin/MergeAsFrames.py:24-25 | the align flag takes the switch's new state; the delete flag is unchanged |
| Plugin.MergeAsFrames.ToggleDelete | plugin/MergeAsFrames.py:33-34 | the delete flag takes the switch's new state; the align flag is unchanged |
| Plugin.MergeAsFrames.AppendFrames | plugin/MergeAsFrames.py:62-68 | the loop leaves the new entry holding the converted, unselected molecules of all fetched entries in order, and records exactly the alignment calls of the run |
| Plugin.MergeAsFrames.OnRun | plugin/MergeAsFrames.py:47-73 | a run appends to the event log exactly the calls `RunEvents` lists for the workspace and the current settings |

## Left out

- Menu construction, the plugin-list buttons and `on_advanced_settings`
  (lines 7-8, 11-23, 26-32, 35-44): user-interface layout with no effect on a
  run.
- `main` and the plugin registration (lines 76-84): process startup.
- Asynchrony: the awaits of `on_run` are sequential calls. A toggle that fires
  while a run is suspended at line 48 or 55 is not modelled. Both flags are
  read after the last await (at every loop pass at line 65, and at line 72),
  so no toggle can change them between those reads. Changes to the workspace
  by the user or other plugins during the awaits are not modelled either: the
  workspace is the same snapshot at lines 48 and 55, so an entry removed in
  between, which `request_complexes` could no longer return, is not covered.
- Plugin.MergeAsFrames.OnRun: the host's reaction to the publish and removal
  commands is not modelled. The workspace is a fixed snapshot; the commands are
  only recorded.
- Structure.NewComplex: the index -1 and the zero defaults are this model's
  stand-in for a complex the SDK has not yet indexed. The SDK's actual default
  values are not part of this model.
- `convert_to_frames`: an uninterpreted function. The structure library's
  conversion is not part of this model.
- `ComplexUtils.align_to`: only the call and its two arguments are recorded.
  The superposition geometry is left out, and the aligned complex's molecules
  are appended unchanged.
- Structure.SetAllSelected: selection is modelled one flag per molecule. The
  atoms, bonds and chains below a molecule are not modelled.
- Structure.AddMolecule: the molecule is appended as a value. Re-parenting a
  molecule object from the converted complex to the new complex, and the
  aliasing that comes with it, are not modelled.
- The new complex is a value built up with updates, not an object mutated in
  place.
- Failures of the host calls: they propagate out of the run and are not
  handled by the plugin. The model's host calls always succeed.
- Logging and the SDK's network transport are not modelled.
