/** Lattice-centring multiplicity: `cellsize` of pyxtal/crystal.py, which
    scales the primitive-cell atom counts up to the conventional cell.

    The source looks the Hermann-Mauguin symbol up from the space-group
    number; that table is not part of this model, so the symbol is the
    input here. */
module Centering {

  /** `cellsize` returns an integer or an error string. */
  datatype Multiplicity = Points(count: nat) | Undetermined(message: string)

  const UndeterminedMessage: string := "Error: Could not determine lattice type"

  /** The centring translations of the conventional cell for each lattice
      letter, in sixths of the cell edges, as International Tables for
      Crystallography, Volume A, lists them (R in the obverse hexagonal
      setting). The letters the source does not know have none. */
  function CenteringVectors(letter: char): set<(int, int, int)>
  {
    match letter
    case 'P' => {(0, 0, 0)}
    case 'A' => {(0, 0, 0), (0, 3, 3)}
    case 'C' => {(0, 0, 0), (3, 3, 0)}
    case 'I' => {(0, 0, 0), (3, 3, 3)}
    case 'R' => {(0, 0, 0), (4, 2, 2), (2, 4, 4)}
    case 'F' => {(0, 0, 0), (0, 3, 3), (3, 0, 3), (3, 3, 0)}
    case _ => {}
  }

  /** `cellsize`: the number of lattice points in the conventional cell,
      read from the first letter of the space-group symbol. */
  function CellSize(symbol: string): (r: Multiplicity)
    requires |symbol| > 0
    ensures r.Points? <==> symbol[0] in "PACIRF"
    ensures r.Points? ==> 1 <= r.count <= 4 && r.count == |CenteringVectors(symbol[0])|
    ensures r.Undetermined? ==> r.message == UndeterminedMessage
  {
    var letter := symbol[0];
    if letter == 'P' then Points(1)
    else if letter in ['A', 'C', 'I'] then Points(2)
    else if letter == 'R' then Points(3)
    else if letter == 'F' then Points(4)
    else Undetermined(UndeterminedMessage)
  }
}
