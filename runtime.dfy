/** The plugin's environment: the request and command channel to the nanome
    host, and the structure-library calls the plugin makes on its complexes.
    Every host call and every alignment is recorded, in the order made, in one
    event log. */
module Runtime {
  import opened Structure

  datatype NotificationType = Message | Success | Warning | Error

  /** One observable interaction of the plugin with the host. */
  datatype Event =
    | ComplexListRequested
    | ComplexesRequested(indices: seq<int>)
    | Notified(kind: NotificationType, message: string)
    | AlignedTo(complex: Complex, reference: Complex)
    | AddedToWorkspace(complexes: seq<Complex>)
    | RemovedFromWorkspace(complexes: seq<Complex>)

  /** The shallow copy of an entry that the complex list carries: everything
      but its molecules. */
  function Shallow(c: Complex): (s: Complex)
    ensures s.index == c.index && s.selected == c.selected && s.molecules == []
  {
    c.(molecules := [])
  }

  /** The complex list, in workspace order. */
  function ShallowList(workspace: seq<Complex>): (r: seq<Complex>)
    ensures |r| == |workspace|
    ensures forall k :: 0 <= k < |r| ==> r[k] == Shallow(workspace[k])
  {
    if workspace == [] then [] else [Shallow(workspace[0])] + ShallowList(workspace[1..])
  }

  /** The indices of the workspace entries, in workspace order. */
  function Indices(workspace: seq<Complex>): (r: seq<int>)
    ensures |r| == |workspace|
    ensures forall k :: 0 <= k < |r| ==> r[k] == workspace[k].index
  {
    if workspace == [] then [] else [workspace[0].index] + Indices(workspace[1..])
  }

  /** The full entry the host holds under `index`. */
  function Find(workspace: seq<Complex>, index: int): (c: Complex)
    requires index in Indices(workspace)
    ensures c in workspace && c.index == index
  {
    if workspace[0].index == index then workspace[0]
    else
      var c := Find(workspace[1..], index);
      assert c in workspace[1..];
      c
  }

  /** The answer to a request for the entries `indices`: one full entry per
      index, in the order requested. */
  function Fetch(workspace: seq<Complex>, indices: seq<int>): (r: seq<Complex>)
    requires forall x :: x in indices ==> x in Indices(workspace)
    ensures |r| == |indices|
    ensures forall k :: 0 <= k < |r| ==> r[k] in workspace && r[k].index == indices[k]
  {
    if indices == [] then [] else [Find(workspace, indices[0])] + Fetch(workspace, indices[1..])
  }

  class Host {
    /** The entries loaded while a run is in progress. */
    const workspace: seq<Complex>
    /** The structure library's conversion of a complex to frame form (a
        method of the complex, not a host call); the model assumes nothing
        about it. */
    const convertToFrames: Complex -> Complex
    /** Every host call and alignment the plugin made, oldest first. */
    var log: seq<Event>

    constructor (workspace: seq<Complex>, convertToFrames: Complex -> Complex)
      ensures this.workspace == workspace && this.convertToFrames == convertToFrames
      ensures log == []
    {
      this.workspace := workspace;
      this.convertToFrames := convertToFrames;
      log := [];
    }

    method RequestComplexList() returns (shallow: seq<Complex>)
      modifies this`log
      ensures shallow == ShallowList(workspace)
      ensures log == old(log) + [ComplexListRequested]
    {
      shallow := ShallowList(workspace);
      log := log + [ComplexListRequested];
    }

    method RequestComplexes(indices: seq<int>) returns (complexes: seq<Complex>)
      requires forall x :: x in indices ==> x in Indices(workspace)
      modifies this`log
      ensures complexes == Fetch(workspace, indices)
      ensures log == old(log) + [ComplexesRequested(indices)]
    {
      complexes := Fetch(workspace, indices);
      log := log + [ComplexesRequested(indices)];
    }

    method SendNotification(kind: NotificationType, message: string)
      modifies this`log
      ensures log == old(log) + [Notified(kind, message)]
    {
      log := log + [Notified(kind, message)];
    }

    /** The structure utilities' alignment of `complex` onto `reference`; only
        the call is recorded. */
    method AlignTo(complex: Complex, reference: Complex)
      modifies this`log
      ensures log == old(log) + [AlignedTo(complex, reference)]
    {
      log := log + [AlignedTo(complex, reference)];
    }

    method AddToWorkspace(complexes: seq<Complex>)
      modifies this`log
      ensures log == old(log) + [AddedToWorkspace(complexes)]
    {
      log := log + [AddedToWorkspace(complexes)];
    }

    method RemoveFromWorkspace(complexes: seq<Complex>)
      modifies this`log
      ensures log == old(log) + [RemovedFromWorkspace(complexes)]
    {
      log := log + [RemovedFromWorkspace(complexes)];
    }
  }
}
