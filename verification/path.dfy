/** A reconstructed path: the ordered cells and the index of the solver
    section it came from (used only to pick a colour). */
module Paths {
  import opened Cells

  /** The cells are read through an accessor and never changed after
      construction, so an immutable datatype carries the whole record. */
  datatype Path = Path(cells: seq<Cell>, id: nat)

  /** `Path::new` keeps the sequence and the id as given and checks
      nothing: any sequence, empty or not adjacent, is accepted. */
  function NewPath(cells: seq<Cell>, id: nat): (p: Path)
    ensures p.cells == cells && p.id == id
  {
    Path(cells, id)
  }
}
