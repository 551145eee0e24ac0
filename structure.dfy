/** The parts of a nanome structure that the merge workflow touches.
    Positions and rotations are carried along as values; no geometry is computed. */
module Structure {

  datatype Vector3 = Vector3(x: real, y: real, z: real)

  datatype Quaternion = Quaternion(x: real, y: real, z: real, w: real)

  /** A molecule of a complex. Its atoms are not modelled; its selection state
      stands for the selection state of all of its atoms. */
  datatype Molecule = Molecule(name: string, selected: bool)

  /** A workspace entry: `index` identifies it in the host, `selected` is its
      entry-list selection, `molecules` its sub-units in order. */
  datatype Complex = Complex(
    index: int,
    selected: bool,
    name: string,
    position: Vector3,
    rotation: Quaternion,
    molecules: seq<Molecule>)

  /** A freshly constructed complex, not yet known to the host. */
  function NewComplex(): (c: Complex)
    ensures c.index == -1 && !c.selected && c.molecules == []
  {
    Complex(-1, false, "", Vector3(0.0, 0.0, 0.0), Quaternion(0.0, 0.0, 0.0, 1.0), [])
  }

  /** Sets the selection state of every molecule of `c` to `value`, leaving
      everything else as it was. */
  function SetAllSelected(c: Complex, value: bool): (r: Complex)
    ensures r.(molecules := c.molecules) == c
    ensures |r.molecules| == |c.molecules|
    ensures forall j :: 0 <= j < |r.molecules| ==> r.molecules[j] == c.molecules[j].(selected := value)
  {
    c.(molecules := WithSelection(c.molecules, value))
  }

  /** `molecules`, each with its selection state set to `value`. */
  function WithSelection(molecules: seq<Molecule>, value: bool): (r: seq<Molecule>)
    ensures |r| == |molecules|
    ensures forall j :: 0 <= j < |r| ==> r[j] == molecules[j].(selected := value)
  {
    if molecules == [] then [] else [molecules[0].(selected := value)] + WithSelection(molecules[1..], value)
  }

  /** Appends `m` as the last molecule of `c`. */
  function AddMolecule(c: Complex, m: Molecule): (r: Complex)
    ensures r.(molecules := c.molecules) == c
    ensures r.molecules == c.molecules + [m]
  {
    c.(molecules := c.molecules + [m])
  }
}
