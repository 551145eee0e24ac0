/** The Merge As Frames plugin: merges the selected workspace entries into one
    new entry whose frames are the molecules of the entries once converted to
    frames, in selection order. */
module Plugin {
  import opened Structure
  import opened Runtime

  const SelectMultipleWarning := "Please select multiple entries."
  const MergedPrefix := "Merged "

  // ---------------------------------------------------------------------------
  // The run, as functions of the workspace and the settings
  // ---------------------------------------------------------------------------

  /** The indices of the selected entries of the complex list, in list order. */
  function SelectedIndices(shallow: seq<Complex>): (r: seq<int>)
    ensures |r| <= |shallow|
  {
    SelectedPrefix(shallow, |shallow|)
  }

  /** The indices of the selected entries among the first `n` of the list. */
  function SelectedPrefix(shallow: seq<Complex>, n: nat): (r: seq<int>)
    requires n <= |shallow|
    ensures |r| <= n
  {
    if n == 0 then []
    else SelectedPrefix(shallow, n - 1) + (if shallow[n - 1].selected then [shallow[n - 1].index] else [])
  }

  /** The selection a run computes from the host's complex list; every selected
      index names an entry the host holds. */
  function Selection(workspace: seq<Complex>): (r: seq<int>)
    ensures forall x :: x in r ==> x in Indices(workspace)
  {
    SelectedAreListed(workspace);
    SelectedIndices(ShallowList(workspace))
  }

  /** A fetched entry as it is just before its molecules are appended: in frame
      form, with nothing selected. */
  function Prepared(c: Complex, toFrames: Complex -> Complex): (p: Complex)
    ensures p.(molecules := toFrames(c).molecules) == toFrames(c)
    ensures |p.molecules| == |toFrames(c).molecules|
    ensures forall j :: 0 <= j < |p.molecules| ==> p.molecules[j] == toFrames(c).molecules[j].(selected := false)
  {
    SetAllSelected(toFrames(c), false)
  }

  /** The molecules contributed by the first `n` fetched entries, in order. */
  function FrameMolecules(complexes: seq<Complex>, n: nat, toFrames: Complex -> Complex): (r: seq<Molecule>)
    requires n <= |complexes|
  {
    if n == 0 then []
    else FrameMolecules(complexes, n - 1, toFrames) + Prepared(complexes[n - 1], toFrames).molecules
  }

  /** The number of molecules the first `n` fetched entries have once in frame form. */
  function MoleculeCount(complexes: seq<Complex>, n: nat, toFrames: Complex -> Complex): (r: nat)
    requires n <= |complexes|
  {
    if n == 0 then 0
    else MoleculeCount(complexes, n - 1, toFrames) + |toFrames(complexes[n - 1]).molecules|
  }

  /** The alignment calls made while the first `n` fetched entries are processed. */
  function Alignments(complexes: seq<Complex>, n: nat, align: bool, toFrames: Complex -> Complex): (r: seq<Event>)
    requires n <= |complexes|
  {
    if n == 0 then []
    else
      Alignments(complexes, n - 1, align, toFrames)
      + (if align && n - 1 > 0 then [AlignedTo(Prepared(complexes[n - 1], toFrames), complexes[0])] else [])
  }

  /** The new entry before any molecule is added: named and placed after the
      first fetched entry. */
  function MergedHeader(first: Complex): (h: Complex)
    ensures h.index == -1 && !h.selected && h.molecules == []
    ensures h.name == MergedPrefix + first.name
    ensures h.position == first.position && h.rotation == first.rotation
  {
    NewComplex().(position := first.position, rotation := first.rotation, name := MergedPrefix + first.name)
  }

  /** The entry a run publishes for the fetched entries `complexes`. */
  function MergedComplex(complexes: seq<Complex>, toFrames: Complex -> Complex): (m: Complex)
    requires |complexes| > 0
    ensures m.index == -1 && !m.selected
    ensures m.name == MergedPrefix + complexes[0].name
    ensures m.position == complexes[0].position && m.rotation == complexes[0].rotation
  {
    MergedHeader(complexes[0]).(molecules := FrameMolecules(complexes, |complexes|, toFrames))
  }

  /** Every host call and alignment one run makes, in order. */
  function RunEvents(workspace: seq<Complex>, align: bool, delete: bool, toFrames: Complex -> Complex): (t: seq<Event>)
    ensures 2 <= |t| && t[0] == ComplexListRequested
  {
    var selected := Selection(workspace);
    if |selected| < 2 then
      [ComplexListRequested, Notified(Warning, SelectMultipleWarning)]
    else
      var complexes := Fetch(workspace, selected);
      [ComplexListRequested, ComplexesRequested(selected)]
      + Alignments(complexes, |complexes|, align, toFrames)
      + [AddedToWorkspace([MergedComplex(complexes, toFrames)])]
      + (if delete then [RemovedFromWorkspace(complexes)] else [])
  }

  // ---------------------------------------------------------------------------
  // Properties of the selection
  // ---------------------------------------------------------------------------

  /** `pos` lists, in increasing order, the positions of exactly the selected
      entries among the first `n` of `shallow`, and `r` their indices. */
  ghost predicate SelectedAt(shallow: seq<Complex>, n: nat, r: seq<int>, pos: seq<nat>)
    requires n <= |shallow|
  {
    && |pos| == |r|
    && (forall j :: 0 <= j < |pos| ==> pos[j] < n && shallow[pos[j]].selected && r[j] == shallow[pos[j]].index)
    && (forall j, j' :: 0 <= j < j' < |pos| ==> pos[j] < pos[j'])
    && (forall k :: 0 <= k < n && shallow[k].selected ==> k in pos)
  }

  /** The selection is the subsequence of the list made of exactly its selected
      entries: `pos` gives, in increasing order, the list position of each. */
  lemma SelectedIndicesExact(shallow: seq<Complex>) returns (pos: seq<nat>)
    ensures |pos| == |SelectedIndices(shallow)|
    ensures forall j :: 0 <= j < |pos| ==>
      pos[j] < |shallow| && shallow[pos[j]].selected && SelectedIndices(shallow)[j] == shallow[pos[j]].index
    ensures forall j, j' :: 0 <= j < j' < |pos| ==> pos[j] < pos[j']
    ensures forall k :: 0 <= k < |shallow| && shallow[k].selected ==> k in pos
  {
    pos := SelectedPrefixExact(shallow, |shallow|);
  }

  lemma {:induction false} SelectedPrefixExact(shallow: seq<Complex>, n: nat) returns (pos: seq<nat>)
    requires n <= |shallow|
    ensures SelectedAt(shallow, n, SelectedPrefix(shallow, n), pos)
  {
    if n == 0 {
      pos := [];
    } else {
      var before := SelectedPrefixExact(shallow, n - 1);
      pos := SelectedAtStep(shallow, n, before);
    }
  }

  /** One step of the induction above: entry `n - 1`, when selected, has its
      position after the positions of the selected entries before it. */
  lemma SelectedAtStep(shallow: seq<Complex>, n: nat, before: seq<nat>) returns (pos: seq<nat>)
    requires 0 < n <= |shallow|
    requires SelectedAt(shallow, n - 1, SelectedPrefix(shallow, n - 1), before)
    ensures SelectedAt(shallow, n, SelectedPrefix(shallow, n), pos)
  {
    var r := SelectedPrefix(shallow, n - 1);
    if !shallow[n - 1].selected {
      assert SelectedPrefix(shallow, n) == r + [];
      SelectedAtSkip(shallow, n, r, before);
      pos := before;
    } else {
      SelectedAtTake(shallow, n, r, before);
      pos := before + [n - 1];
    }
  }

  lemma SelectedAtSkip(shallow: seq<Complex>, n: nat, r: seq<int>, before: seq<nat>)
    requires 0 < n <= |shallow| && !shallow[n - 1].selected
    requires SelectedAt(shallow, n - 1, r, before)
    ensures SelectedAt(shallow, n, r, before)
  {
  }

  lemma SelectedAtTake(shallow: seq<Complex>, n: nat, r: seq<int>, before: seq<nat>)
    requires 0 < n <= |shallow| && shallow[n - 1].selected
    requires SelectedAt(shallow, n - 1, r, before)
    ensures SelectedAt(shallow, n, r + [shallow[n - 1].index], before + [n - 1])
  {
    var r', pos := r + [shallow[n - 1].index], before + [n - 1];
    StepCarries(shallow, n, r, before, r', pos);
    StepIncreasing(n, before, pos);
    StepComplete(shallow, n, before, pos);
  }

  lemma StepCarries(shallow: seq<Complex>, n: nat, r: seq<int>, before: seq<nat>, r': seq<int>, pos: seq<nat>)
    requires 0 < n <= |shallow| && shallow[n - 1].selected && |before| == |r|
    requires r' == r + [shallow[n - 1].index] && pos == before + [n - 1]
    requires forall j :: 0 <= j < |before| ==>
      before[j] < n - 1 && shallow[before[j]].selected && r[j] == shallow[before[j]].index
    ensures |pos| == |r'|
    ensures forall j :: 0 <= j < |pos| ==> pos[j] < n && shallow[pos[j]].selected && r'[j] == shallow[pos[j]].index
  {
    forall j | 0 <= j < |pos|
      ensures pos[j] < n && shallow[pos[j]].selected && r'[j] == shallow[pos[j]].index
    {
      if j < |before| {
        assert pos[j] == before[j] && r'[j] == r[j];
      }
    }
  }

  lemma StepIncreasing(n: nat, before: seq<nat>, pos: seq<nat>)
    requires pos == before + [n - 1]
    requires forall j :: 0 <= j < |before| ==> before[j] < n - 1
    requires forall j, j' :: 0 <= j < j' < |before| ==> before[j] < before[j']
    ensures forall j, j' :: 0 <= j < j' < |pos| ==> pos[j] < pos[j']
  {
    forall j, j' | 0 <= j < j' < |pos|
      ensures pos[j] < pos[j']
    {
      assert pos[j] == before[j];
    }
  }

  lemma StepComplete(shallow: seq<Complex>, n: nat, before: seq<nat>, pos: seq<nat>)
    requires 0 < n <= |shallow| && pos == before + [n - 1]
    requires forall k :: 0 <= k < n - 1 && shallow[k].selected ==> k in before
    ensures forall k :: 0 <= k < n && shallow[k].selected ==> k in pos
  {
  }

  /** An index is selected exactly when some selected list entry carries it. */
  lemma SelectedIndicesMembership(shallow: seq<Complex>, x: int)
    ensures x in SelectedIndices(shallow) <==>
      exists k :: 0 <= k < |shallow| && shallow[k].selected && shallow[k].index == x
  {
    var pos := SelectedIndicesExact(shallow);
    var r := SelectedIndices(shallow);
    if x in r {
      var j :| 0 <= j < |r| && r[j] == x;
      assert shallow[pos[j]].selected && shallow[pos[j]].index == x;
    }
    if k :| 0 <= k < |shallow| && shallow[k].selected && shallow[k].index == x {
      var j :| 0 <= j < |pos| && pos[j] == k;
      assert r[j] == x;
    }
  }

  /** Every selected index names an entry of the workspace. */
  lemma SelectedAreListed(workspace: seq<Complex>)
    ensures forall x :: x in SelectedIndices(ShallowList(workspace)) ==> x in Indices(workspace)
  {
    SelectedPrefixListed(ShallowList(workspace), Indices(workspace), |workspace|);
  }

  lemma {:induction false} SelectedPrefixListed(shallow: seq<Complex>, indices: seq<int>, n: nat)
    requires n <= |shallow| == |indices|
    requires forall k :: 0 <= k < |shallow| ==> shallow[k].index == indices[k]
    ensures forall x :: x in SelectedPrefix(shallow, n) ==> x in indices
  {
    if n > 0 {
      SelectedPrefixListed(shallow, indices, n - 1);
      assert indices[n - 1] == shallow[n - 1].index;
    }
  }

  // ---------------------------------------------------------------------------
  // Properties of the merged molecules and of the alignment calls
  // ---------------------------------------------------------------------------

  /** The merged entry has as many molecules as the converted entries together. */
  lemma {:induction false} FrameMoleculesCount(complexes: seq<Complex>, n: nat, toFrames: Complex -> Complex)
    requires n <= |complexes|
    ensures |FrameMolecules(complexes, n, toFrames)| == MoleculeCount(complexes, n, toFrames)
  {
    if n > 0 {
      FrameMoleculesCount(complexes, n - 1, toFrames);
    }
  }

  /** Molecule `j` of converted entry `k` sits right after the molecules of the
      entries before `k`, with its selection cleared. */
  lemma {:induction false} FrameMoleculesLayout(complexes: seq<Complex>, n: nat, toFrames: Complex -> Complex, k: nat, j: nat)
    requires k < n <= |complexes|
    requires j < |toFrames(complexes[k]).molecules|
    ensures MoleculeCount(complexes, k, toFrames) + j < |FrameMolecules(complexes, n, toFrames)|
    ensures FrameMolecules(complexes, n, toFrames)[MoleculeCount(complexes, k, toFrames) + j]
         == toFrames(complexes[k]).molecules[j].(selected := false)
  {
    var merged := FrameMolecules(complexes, n, toFrames);
    var before := FrameMolecules(complexes, n - 1, toFrames);
    if k < n - 1 {
      FrameMoleculesLayout(complexes, n - 1, toFrames, k, j);
      ConcatLeft(merged, before, Prepared(complexes[n - 1], toFrames).molecules, MoleculeCount(complexes, k, toFrames) + j);
    } else {
      LastEntryLayout(complexes, n, toFrames, k, j);
    }
  }

  /** The base case of the layout: the molecules of the last entry processed. */
  lemma LastEntryLayout(complexes: seq<Complex>, n: nat, toFrames: Complex -> Complex, k: nat, j: nat)
    requires k == n - 1 && n <= |complexes|
    requires j < |toFrames(complexes[k]).molecules|
    ensures MoleculeCount(complexes, k, toFrames) + j < |FrameMolecules(complexes, n, toFrames)|
    ensures FrameMolecules(complexes, n, toFrames)[MoleculeCount(complexes, k, toFrames) + j]
         == toFrames(complexes[k]).molecules[j].(selected := false)
  {
    var merged := FrameMolecules(complexes, n, toFrames);
    var before := FrameMolecules(complexes, k, toFrames);
    var last := Prepared(complexes[k], toFrames).molecules;
    assert merged == before + last;
    FrameMoleculesCount(complexes, k, toFrames);
    PreparedMolecule(complexes[k], toFrames, j);
    ConcatRight(merged, before, last, j);
  }

  lemma PreparedMolecule(c: Complex, toFrames: Complex -> Complex, j: nat)
    requires j < |toFrames(c).molecules|
    ensures |Prepared(c, toFrames).molecules| == |toFrames(c).molecules|
    ensures Prepared(c, toFrames).molecules[j] == toFrames(c).molecules[j].(selected := false)
  {
  }

  /** No merged molecule is selected. */
  lemma {:induction false} FrameMoleculesUnselected(complexes: seq<Complex>, n: nat, toFrames: Complex -> Complex)
    requires n <= |complexes|
    ensures forall p :: 0 <= p < |FrameMolecules(complexes, n, toFrames)| ==> !FrameMolecules(complexes, n, toFrames)[p].selected
  {
    if n > 0 {
      FrameMoleculesUnselected(complexes, n - 1, toFrames);
    }
  }

  /** With alignment on, every entry but the first is aligned, in order, onto
      the first fetched entry; with alignment off, none is. */
  lemma {:induction false} AlignmentsExact(complexes: seq<Complex>, n: nat, align: bool, toFrames: Complex -> Complex)
    requires n <= |complexes|
    ensures |Alignments(complexes, n, align, toFrames)| == if align && n > 0 then n - 1 else 0
    ensures forall j :: 0 <= j < |Alignments(complexes, n, align, toFrames)| ==>
      Alignments(complexes, n, align, toFrames)[j] == AlignedTo(Prepared(complexes[j + 1], toFrames), complexes[0])
  {
    if n > 0 {
      AlignmentsExact(complexes, n - 1, align, toFrames);
    }
  }

  // ---------------------------------------------------------------------------
  // Properties of a whole run
  // ---------------------------------------------------------------------------

  /** With fewer than two entries selected, a run only reads the list and sends
      one warning: nothing is fetched, published or removed. */
  lemma AbortSendsOnlyWarning(workspace: seq<Complex>, align: bool, delete: bool, toFrames: Complex -> Complex)
    requires |Selection(workspace)| < 2
    ensures RunEvents(workspace, align, delete, toFrames) == [ComplexListRequested, Notified(Warning, SelectMultipleWarning)]
    ensures forall e :: e in RunEvents(workspace, align, delete, toFrames) ==>
      !e.ComplexesRequested? && !e.AddedToWorkspace? && !e.RemovedFromWorkspace?
  {
  }

  /** With two or more entries selected, a run fetches the selection, makes the
      alignment calls, publishes the merged entry and, when asked to, removes
      the fetched entries. */
  lemma MergeEvents(workspace: seq<Complex>, align: bool, delete: bool, toFrames: Complex -> Complex)
    requires |Selection(workspace)| >= 2
    ensures var complexes := Fetch(workspace, Selection(workspace));
      RunEvents(workspace, align, delete, toFrames)
      == [ComplexListRequested, ComplexesRequested(Selection(workspace))]
         + Alignments(complexes, |complexes|, align, toFrames)
         + [AddedToWorkspace([MergedComplex(complexes, toFrames)])]
         + (if delete then [RemovedFromWorkspace(complexes)] else [])
  {
  }

  /** With two or more entries selected, a run sends no notification: it first
      requests the list, then the selected entries, and up to the publish makes
      only requests and alignment calls. */
  lemma MergeRequestsThenAligns(workspace: seq<Complex>, align: bool, delete: bool, toFrames: Complex -> Complex)
    requires |Selection(workspace)| >= 2
    ensures var complexes := Fetch(workspace, Selection(workspace));
            var t := RunEvents(workspace, align, delete, toFrames);
            var p := 2 + (if align then |complexes| - 1 else 0);
            && p < |t|
            && t[0] == ComplexListRequested && t[1] == ComplexesRequested(Selection(workspace))
            && (forall q :: 2 <= q < p ==> t[q].AlignedTo?)
            && (forall e :: e in t ==> !e.Notified?)
  {
    var complexes := Fetch(workspace, Selection(workspace));
    var t := RunEvents(workspace, align, delete, toFrames);
    MergeEvents(workspace, align, delete, toFrames);
    AlignmentsExact(complexes, |complexes|, align, toFrames);
    AlignmentsAreCalls(complexes, |complexes|, align, toFrames);
    LogKinds(t, [ComplexListRequested, ComplexesRequested(Selection(workspace))],
      Alignments(complexes, |complexes|, align, toFrames), AddedToWorkspace([MergedComplex(complexes, toFrames)]),
      if delete then [RemovedFromWorkspace(complexes)] else []);
  }

  /** The kinds of the events of a log made of requests, alignment calls, one
      publish and removals, by position. */
  lemma LogKinds(t: seq<Event>, requests: seq<Event>, alignments: seq<Event>, publish: Event, removal: seq<Event>)
    requires t == requests + alignments + [publish] + removal
    requires forall e :: e in requests ==> e.ComplexListRequested? || e.ComplexesRequested?
    requires forall e :: e in alignments ==> e.AlignedTo?
    requires publish.AddedToWorkspace?
    requires forall e :: e in removal ==> e.RemovedFromWorkspace?
    ensures |requests| + |alignments| < |t|
    ensures forall q :: 0 <= q < |requests| ==> t[q] == requests[q]
    ensures forall q :: |requests| <= q < |requests| + |alignments| ==> t[q].AlignedTo?
    ensures forall e :: e in t ==> !e.Notified?
  {
    forall q | 0 <= q < |requests|
      ensures t[q] == requests[q]
    {
      assert t[q] == (requests + alignments + [publish] + removal)[q];
    }
    forall q | |requests| <= q < |requests| + |alignments|
      ensures t[q].AlignedTo?
    {
      assert t[q] == alignments[q - |requests|];
      assert alignments[q - |requests|] in alignments;
    }
    forall e | e in t
      ensures !e.Notified?
    {
      assert e in requests || e in alignments || e == publish || e in removal;
    }
  }

  /** With two or more entries selected, a run publishes exactly the merged
      entry, right after the alignment calls (one per entry but the first when
      alignment is on). */
  lemma PublishedEntry(workspace: seq<Complex>, align: bool, delete: bool, toFrames: Complex -> Complex)
    requires |Selection(workspace)| >= 2
    ensures var complexes := Fetch(workspace, Selection(workspace));
            var t := RunEvents(workspace, align, delete, toFrames);
            var p := 2 + (if align then |complexes| - 1 else 0);
            p < |t| && t[p] == AddedToWorkspace([MergedComplex(complexes, toFrames)])
  {
    var complexes := Fetch(workspace, Selection(workspace));
    var t := RunEvents(workspace, align, delete, toFrames);
    var alignments := Alignments(complexes, |complexes|, align, toFrames);
    MergeEvents(workspace, align, delete, toFrames);
    AlignmentsExact(complexes, |complexes|, align, toFrames);
    ElementAt(t, [ComplexListRequested, ComplexesRequested(Selection(workspace))], alignments,
      AddedToWorkspace([MergedComplex(complexes, toFrames)]), if delete then [RemovedFromWorkspace(complexes)] else [],
      2 + (if align then |complexes| - 1 else 0));
  }

  /** The merged entry is a new entry named after the first fetched entry,
      placed as it is, holding all molecules of the converted entries and none
      of them selected. */
  lemma MergedEntryContents(complexes: seq<Complex>, toFrames: Complex -> Complex)
    requires |complexes| > 0
    ensures var m := MergedComplex(complexes, toFrames);
            && m.index == -1 && !m.selected
            && m.name == MergedPrefix + complexes[0].name
            && m.position == complexes[0].position
            && m.rotation == complexes[0].rotation
            && |m.molecules| == MoleculeCount(complexes, |complexes|, toFrames)
            && forall q :: 0 <= q < |m.molecules| ==> !m.molecules[q].selected
  {
    FrameMoleculesCount(complexes, |complexes|, toFrames);
    FrameMoleculesUnselected(complexes, |complexes|, toFrames);
  }

  /** A run publishes at most once, and removes the originals only when deletion
      is on and a merge happened: then it removes exactly the fetched entries,
      as its last command, right after the publish. */
  lemma PublishThenDelete(workspace: seq<Complex>, align: bool, delete: bool, toFrames: Complex -> Complex)
    ensures var t := RunEvents(workspace, align, delete, toFrames);
            forall p, q :: 0 <= p < |t| && 0 <= q < |t| && t[p].AddedToWorkspace? && t[q].AddedToWorkspace? ==> p == q
    ensures var t := RunEvents(workspace, align, delete, toFrames);
            forall q :: 0 <= q < |t| && t[q].RemovedFromWorkspace? ==>
              && q == |t| - 1 && 0 < q && t[q - 1].AddedToWorkspace?
              && t[q].complexes == Fetch(workspace, Selection(workspace))
    ensures var t := RunEvents(workspace, align, delete, toFrames);
            (exists q :: 0 <= q < |t| && t[q].RemovedFromWorkspace?) <==> delete && |Selection(workspace)| >= 2
  {
    var t := RunEvents(workspace, align, delete, toFrames);
    var selected := Selection(workspace);
    if |selected| >= 2 {
      var complexes := Fetch(workspace, selected);
      var alignments := Alignments(complexes, |complexes|, align, toFrames);
      var removal := if delete then [RemovedFromWorkspace(complexes)] else [];
      MergeEvents(workspace, align, delete, toFrames);
      AlignmentsAreCalls(complexes, |complexes|, align, toFrames);
      LogOrder(t, [ComplexListRequested, ComplexesRequested(selected)], alignments,
        AddedToWorkspace([MergedComplex(complexes, toFrames)]), removal);
    } else {
      AbortSendsOnlyWarning(workspace, align, delete, toFrames);
    }
  }

  /** Three selected entries with two, one and three molecules once in frame
      form, no alignment, deletion on: the run fetches them in list order,
      publishes one entry holding their six molecules in that order, then
      removes the three. */
  lemma ThreeEntryRun(a: Complex, b: Complex, c: Complex, toFrames: Complex -> Complex)
    requires a.selected && b.selected && c.selected
    requires a.index != b.index && a.index != c.index && b.index != c.index
    requires |toFrames(a).molecules| == 2 && |toFrames(b).molecules| == 1 && |toFrames(c).molecules| == 3
    ensures var m := MergedComplex([a, b, c], toFrames);
            && RunEvents([a, b, c], false, true, toFrames)
               == [ComplexListRequested, ComplexesRequested([a.index, b.index, c.index]),
                   AddedToWorkspace([m]), RemovedFromWorkspace([a, b, c])]
            && m.molecules == Prepared(a, toFrames).molecules + Prepared(b, toFrames).molecules + Prepared(c, toFrames).molecules
            && |m.molecules| == 6
  {
    var ws := [a, b, c];
    var selected := [a.index, b.index, c.index];
    ThreeSelected(a, b, c);
    ThreeFetched(a, b, c);
    ThreeMerged(a, b, c, toFrames);
    MergeEvents(ws, false, true, toFrames);
    AlignmentsExact(ws, 3, false, toFrames);
    EventsInOrder(ComplexListRequested, ComplexesRequested(selected), Alignments(ws, 3, false, toFrames),
      AddedToWorkspace([MergedComplex(ws, toFrames)]), RemovedFromWorkspace(ws));
  }

  lemma ThreeSelected(a: Complex, b: Complex, c: Complex)
    requires a.selected && b.selected && c.selected
    ensures Selection([a, b, c]) == [a.index, b.index, c.index]
  {
    var shallow := ShallowList([a, b, c]);
    assert shallow == [Shallow(a), Shallow(b), Shallow(c)];
    assert SelectedPrefix(shallow, 1) == [a.index];
    assert SelectedPrefix(shallow, 2) == [a.index, b.index];
  }

  lemma ThreeFetched(a: Complex, b: Complex, c: Complex)
    requires a.index != b.index && a.index != c.index && b.index != c.index
    requires forall x :: x in [a.index, b.index, c.index] ==> x in Indices([a, b, c])
    ensures Fetch([a, b, c], [a.index, b.index, c.index]) == [a, b, c]
  {
    var ws := [a, b, c];
    var indices := [a.index, b.index, c.index];
    assert ws[1..] == [b, c] && ws[1..][1..] == [c];
    assert indices[1..] == [b.index, c.index] && indices[1..][1..] == [c.index];
    assert Find(ws, a.index) == a;
    assert Find(ws, b.index) == Find([b, c], b.index) == b;
    assert Find(ws, c.index) == Find([c], c.index) == c;
    assert Fetch(ws, [c.index]) == [c] + [];
    assert Fetch(ws, [b.index, c.index]) == [b] + [c];
  }

  lemma ThreeMerged(a: Complex, b: Complex, c: Complex, toFrames: Complex -> Complex)
    ensures FrameMolecules([a, b, c], 3, toFrames)
         == Prepared(a, toFrames).molecules + Prepared(b, toFrames).molecules + Prepared(c, toFrames).molecules
  {
    var pa := Prepared(a, toFrames).molecules;
    assert FrameMolecules([a, b, c], 1, toFrames) == [] + pa == pa;
  }


  lemma {:induction false} AlignmentsAreCalls(complexes: seq<Complex>, n: nat, align: bool, toFrames: Complex -> Complex)
    requires n <= |complexes|
    ensures forall e :: e in Alignments(complexes, n, align, toFrames) ==> e.AlignedTo?
  {
    if n > 0 {
      AlignmentsAreCalls(complexes, n - 1, align, toFrames);
    }
  }

  /** The order facts above, for any log made of requests, alignment calls, one
      publish and at most one removal. */
  lemma LogOrder(t: seq<Event>, requests: seq<Event>, alignments: seq<Event>, publish: Event, removal: seq<Event>)
    requires t == requests + alignments + [publish] + removal
    requires forall e :: e in requests ==> e.ComplexListRequested? || e.ComplexesRequested?
    requires forall e :: e in alignments ==> e.AlignedTo?
    requires publish.AddedToWorkspace?
    requires |removal| <= 1 && forall e :: e in removal ==> e.RemovedFromWorkspace?
    ensures forall p, q :: 0 <= p < |t| && 0 <= q < |t| && t[p].AddedToWorkspace? && t[q].AddedToWorkspace? ==> p == q
    ensures forall q :: 0 <= q < |t| && t[q].RemovedFromWorkspace? ==>
      q == |t| - 1 && 0 < q && t[q - 1] == publish && t[q] == removal[0]
    ensures (exists q :: 0 <= q < |t| && t[q].RemovedFromWorkspace?) <==> |removal| == 1
  {
    var n := |requests| + |alignments|;
    assert |t| == n + 1 + |removal|;
    forall q | 0 <= q < |t|
      ensures q < n ==> !t[q].AddedToWorkspace? && !t[q].RemovedFromWorkspace?
      ensures q == n ==> t[q] == publish
      ensures q > n ==> t[q] == removal[q - n - 1]
    {
      if q < |requests| {
        assert t[q] == requests[q];
        assert requests[q] in requests;
      } else if q < n {
        assert t[q] == alignments[q - |requests|];
        assert alignments[q - |requests|] in alignments;
      }
    }
    if |removal| == 1 {
      assert removal[0] in removal;
      assert t[n + 1].RemovedFromWorkspace?;
    }
  }

  // ---------------------------------------------------------------------------
  // Sequence helpers: generic identities of concatenation and indexing, called
  // to keep the proofs above small; they are not properties of the plugin
  // ---------------------------------------------------------------------------

  lemma EventsInOrder<T>(a: T, b: T, none: seq<T>, c: T, d: T)
    requires none == []
    ensures [a, b] + none + [c] + [d] == [a, b, c, d]
  {
  }
  lemma AppendAssoc<T>(a: seq<T>, b: seq<T>, c: seq<T>)
    ensures a + b + c == a + (b + c)
  {
  }

  lemma LogShape<T>(o: seq<T>, a: T, b: T, c: seq<T>, d: T, e: seq<T>)
    ensures o + [a] + [b] + c + [d] + e == o + ([a, b] + c + [d] + e)
  {
  }

  lemma ElementAt<T>(t: seq<T>, h: seq<T>, a: seq<T>, x: T, r: seq<T>, p: nat)
    requires t == h + a + [x] + r && p == |h| + |a|
    ensures p < |t| && t[p] == x
  {
  }

  lemma ConcatLeft<T>(t: seq<T>, a: seq<T>, b: seq<T>, i: nat)
    requires t == a + b && i < |a|
    ensures i < |t| && t[i] == a[i]
  {
  }

  lemma ConcatRight<T>(t: seq<T>, a: seq<T>, b: seq<T>, j: nat)
    requires t == a + b && j < |b|
    ensures |a| + j < |t| && t[|a| + j] == b[j]
  {
  }

  lemma AppendEmpty<T>(a: seq<T>)
    ensures a + [] == a
  {
  }

  /** Adds `molecules`, one at a time and in order, to the end of `target`. */
  method AppendMolecules(target: Complex, molecules: seq<Molecule>) returns (r: Complex)
    ensures r == target.(molecules := target.molecules + molecules)
  {
    r := target;
    var j := 0;
    while j < |molecules|
      invariant 0 <= j <= |molecules|
      invariant r == target.(molecules := target.molecules + molecules[..j])
    {
      r := AddMolecule(r, molecules[j]);
      assert molecules[..j + 1] == molecules[..j] + [molecules[j]];
      j := j + 1;
    }
    assert molecules[..j] == molecules;
  }

  // ---------------------------------------------------------------------------
  // The plugin
  // ---------------------------------------------------------------------------

  class MergeAsFrames {
    const host: Host
    var alignCoordinates: bool
    var deleteOriginals: bool

    /** Both settings start off. */
    constructor Start(host: Host)
      ensures this.host == host
      ensures !alignCoordinates && !deleteOriginals
    {
      this.host := host;
      alignCoordinates := false;
      deleteOriginals := false;
    }

    /** The "Align Coordinates" switch was pressed; `selected` is its new state. */
    method ToggleAlign(selected: bool)
      modifies this`alignCoordinates
      ensures alignCoordinates == selected
      ensures deleteOriginals == old(deleteOriginals)
    {
      alignCoordinates := selected;
    }

    /** The "Delete Entries" switch was pressed; `selected` is its new state. */
    method ToggleDelete(selected: bool)
      modifies this`deleteOriginals
      ensures deleteOriginals == selected
      ensures alignCoordinates == old(alignCoordinates)
    {
      deleteOriginals := selected;
    }

    /** The run button was pressed. */
    method OnRun()
      modifies host`log
      ensures host.log == old(host.log) + RunEvents(host.workspace, alignCoordinates, deleteOriginals, host.convertToFrames)
    {
      var shallow := host.RequestComplexList();
      var indicesSelected := SelectedIndices(shallow);
      assert indicesSelected == Selection(host.workspace);

      if |indicesSelected| < 2 {
        host.SendNotification(Warning, SelectMultipleWarning);
        AbortSendsOnlyWarning(host.workspace, alignCoordinates, deleteOriginals, host.convertToFrames);
        return;
      }

      ghost var listed := host.log;
      var complexes := host.RequestComplexes(indicesSelected);

      var newComplex := NewComplex();
      newComplex := newComplex.(position := complexes[0].position);
      newComplex := newComplex.(rotation := complexes[0].rotation);
      newComplex := newComplex.(name := MergedPrefix + complexes[0].name);
      assert newComplex == MergedHeader(complexes[0]);

      newComplex := AppendFrames(newComplex, complexes);
      ghost var aligned := Alignments(complexes, |complexes|, alignCoordinates, host.convertToFrames);

      host.AddToWorkspace([newComplex]);

      ghost var removal: seq<Event> := [];
      if deleteOriginals {
        host.RemoveFromWorkspace(complexes);
        removal := [RemovedFromWorkspace(complexes)];
      } else {
        AppendEmpty(host.log);
      }
      assert host.log == listed + [ComplexesRequested(indicesSelected)] + aligned + [AddedToWorkspace([newComplex])] + removal;
      MergeEvents(host.workspace, alignCoordinates, deleteOriginals, host.convertToFrames);
      LogShape(old(host.log), ComplexListRequested, ComplexesRequested(indicesSelected), aligned, AddedToWorkspace([newComplex]), removal);
    }

    /** The loop of a run over the fetched entries: each is converted to frame
        form, unselected, aligned onto the first one when that is asked for and
        it is not the first, and its molecules are appended to `newComplex`. */
    method AppendFrames(newComplex: Complex, complexes: seq<Complex>) returns (merged: Complex)
      requires newComplex.molecules == []
      modifies host`log
      ensures merged == newComplex.(molecules := FrameMolecules(complexes, |complexes|, host.convertToFrames))
      ensures host.log == old(host.log) + Alignments(complexes, |complexes|, alignCoordinates, host.convertToFrames)
    {
      ghost var start := host.log;
      merged := newComplex;
      var i := 0;
      while i < |complexes|
        invariant 0 <= i <= |complexes|
        invariant merged == newComplex.(molecules := FrameMolecules(complexes, i, host.convertToFrames))
        invariant host.log == start + Alignments(complexes, i, alignCoordinates, host.convertToFrames)
      {
        var complex := host.convertToFrames(complexes[i]);
        complex := SetAllSelected(complex, false);
        assert complex == Prepared(complexes[i], host.convertToFrames);
        if alignCoordinates && i > 0 {
          host.AlignTo(complex, complexes[0]);
          AppendAssoc(start, Alignments(complexes, i, alignCoordinates, host.convertToFrames), [AlignedTo(complex, complexes[0])]);
        } else {
          AppendEmpty(Alignments(complexes, i, alignCoordinates, host.convertToFrames));
        }
        merged := AppendMolecules(merged, complex.molecules);
        i := i + 1;
      }
    }
  }
}
