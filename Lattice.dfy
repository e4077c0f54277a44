/** The discrete skeleton of the lattice generators of pyxtal/crystal.py:
    which branch of `generate_lattice` (space groups), `generate_lattice_2D`
    (layer groups) and `generate_lattice_1D` (rod groups) a group number
    takes, and what that branch fixes about the cell: its family, which of
    the angles alpha, beta, gamma are 90 degrees, 120 degrees or drawn at
    random, and which lengths are forced equal. The lengths and random
    angles themselves are floating point and are not modelled. The
    command-line range check of the script's main block closes the file. */
module Lattice {

  import opened Wrappers

  datatype Family = Triclinic | Monoclinic | Orthorhombic | Tetragonal | Hexagonal | Cubic

  /** How a branch sets one cell angle. */
  datatype Angle =
    | Right   // pi/2
    | Deg120  // pi/3*2
    | Random  // drawn from a random shear matrix or a Gaussian

  /** Which lengths a branch forces equal. UnitAB is the cell the 2D and 1D
      generators leave behind when no branch matches: a and b stay at 1. */
  datatype Lengths = Independent | AEqualsB | AllEqual | UnitAB

  datatype Axis = A | B | C

  /** What one branch decides. `family` is None when no branch matches. */
  datatype CellRule = CellRule(family: Option<Family>, alpha: Angle, beta: Angle, gamma: Angle, lengths: Lengths)

  function AngleAt(r: CellRule, axis: Axis): Angle
  {
    match axis
    case A => r.alpha
    case B => r.beta
    case C => r.gamma
  }

  /** How many of the three angles are drawn at random. */
  function RandomCount(r: CellRule): nat
  {
    (if r.alpha == Random then 1 else 0)
    + (if r.beta == Random then 1 else 0)
    + (if r.gamma == Random then 1 else 0)
  }

  // ---------------------------------------------------------------------
  // Reference: the conventional cells and the group tables of
  // International Tables for Crystallography (Volume A for space groups,
  // Volume E for layer and rod groups)

  /** The metric a conventional cell of each crystal family has: a
      monoclinic cell has exactly one free angle, that of its unique axis,
      and two right angles. */
  predicate Conforms(r: CellRule)
  {
    match r.family
    case None => false
    case Some(f) =>
      match f
      case Triclinic =>
        r.alpha == r.beta == r.gamma == Random && r.lengths == Independent
      case Monoclinic =>
        && r.lengths == Independent
        && RandomCount(r) == 1
        && Deg120 !in {r.alpha, r.beta, r.gamma}
      case Orthorhombic =>
        r.alpha == r.beta == r.gamma == Right && r.lengths == Independent
      case Tetragonal =>
        r.alpha == r.beta == r.gamma == Right && r.lengths == AEqualsB
      case Hexagonal =>
        r.alpha == r.beta == Right && r.gamma == Deg120 && r.lengths == AEqualsB
      case Cubic =>
        r.alpha == r.beta == r.gamma == Right && r.lengths == AllEqual
  }

  datatype CrystalSystem =
    | TriclinicSystem | MonoclinicSystem | OrthorhombicSystem | TetragonalSystem
    | TrigonalSystem | HexagonalSystem | CubicSystem

  /** Trigonal and hexagonal systems form the hexagonal crystal family. */
  function FamilyOf(s: CrystalSystem): Family
  {
    match s
    case TriclinicSystem => Triclinic
    case MonoclinicSystem => Monoclinic
    case OrthorhombicSystem => Orthorhombic
    case TetragonalSystem => Tetragonal
    case TrigonalSystem => Hexagonal
    case HexagonalSystem => Hexagonal
    case CubicSystem => Cubic
  }

  function SpaceGroupSystem(sg: int): CrystalSystem
    requires 1 <= sg <= 230
  {
    if sg <= 2 then TriclinicSystem
    else if sg <= 15 then MonoclinicSystem
    else if sg <= 74 then OrthorhombicSystem
    else if sg <= 142 then TetragonalSystem
    else if sg <= 167 then TrigonalSystem
    else if sg <= 194 then HexagonalSystem
    else CubicSystem
  }

  function LayerGroupSystem(num: int): CrystalSystem
    requires 1 <= num <= 80
  {
    if num <= 2 then TriclinicSystem
    else if num <= 18 then MonoclinicSystem
    else if num <= 48 then OrthorhombicSystem
    else if num <= 64 then TetragonalSystem
    else if num <= 72 then TrigonalSystem
    else HexagonalSystem
  }

  function RodGroupSystem(num: int): CrystalSystem
    requires 1 <= num <= 75
  {
    if num <= 2 then TriclinicSystem
    else if num <= 12 then MonoclinicSystem
    else if num <= 22 then OrthorhombicSystem
    else if num <= 41 then TetragonalSystem
    else if num <= 52 then TrigonalSystem
    else HexagonalSystem
  }

  /** Unique axis of the monoclinic layer groups: c for the oblique ones
      (3-7), a for the rectangular ones (8-18). */
  function LayerMonoclinicAxis(num: int): Axis
    requires 3 <= num <= 18
  {
    if num <= 7 then C else A
  }

  /** Unique axis of the monoclinic rod groups: a for the inclined ones
      (3-7), c for the orthogonal ones (8-12). */
  function RodMonoclinicAxis(num: int): Axis
    requires 3 <= num <= 12
  {
    if num <= 7 then A else C
  }

  // ---------------------------------------------------------------------
  // The generators' branches

  /** The branch structure of `generate_lattice`. The number is not range
      checked there: anything up to 2 is triclinic, anything above 194
      cubic. */
  function SpaceGroupCell(sg: int): (r: CellRule)
    ensures Conforms(r)
    ensures 1 <= sg <= 230 ==> r.family == Some(FamilyOf(SpaceGroupSystem(sg)))
    ensures r.family == Some(Monoclinic) ==> r.beta == Random
    ensures sg <= 2 ==> r.family == Some(Triclinic)
    ensures sg > 194 ==> r.family == Some(Cubic)
  {
    if sg <= 2 then CellRule(Some(Triclinic), Random, Random, Random, Independent)
    else if sg <= 15 then CellRule(Some(Monoclinic), Right, Random, Right, Independent)
    else if sg <= 74 then CellRule(Some(Orthorhombic), Right, Right, Right, Independent)
    else if sg <= 142 then CellRule(Some(Tetragonal), Right, Right, Right, AEqualsB)
    else if sg <= 194 then CellRule(Some(Hexagonal), Right, Right, Deg120, AEqualsB)
    else CellRule(Some(Cubic), Right, Right, Right, AllEqual)
  }

  /** `unique_axis` as `generate_lattice_2D` sets it before its loop; unset
      outside 3-18. */
  function LayerUniqueAxis(num: int): (r: Option<Axis>)
    ensures r.Some? <==> 3 <= num <= 18
    ensures r.Some? ==> r.value == LayerMonoclinicAxis(num)
  {
    if 3 <= num < 8 then Some(C)
    else if 8 <= num < 19 then Some(A)
    else None
  }

  /** The branch structure of `generate_lattice_2D` with the non-periodic
      axis c (NPA = 3). A number above 80 takes no branch: the angles keep
      their 90-degree defaults and a, b keep the value 1. */
  function LayerGroupCell(num: int): (r: CellRule)
    ensures r.family.None? <==> num > 80
    ensures r.family.Some? ==> Conforms(r)
    ensures 1 <= num <= 80 ==> r.family == Some(FamilyOf(LayerGroupSystem(num)))
    ensures 3 <= num <= 18 ==> AngleAt(r, LayerMonoclinicAxis(num)) == Random
    ensures num <= 2 ==> r.family == Some(Triclinic)
    ensures num > 80 ==> r == CellRule(None, Right, Right, Right, UnitAB)
  {
    if num <= 2 then CellRule(Some(Triclinic), Random, Random, Random, Independent)
    else if num <= 18 then
      match LayerUniqueAxis(num)
      case Some(A) => CellRule(Some(Monoclinic), Random, Right, Right, Independent)
      case Some(B) => CellRule(Some(Monoclinic), Right, Random, Right, Independent)
      case Some(C) => CellRule(Some(Monoclinic), Right, Right, Random, Independent)
    else if num <= 48 then CellRule(Some(Orthorhombic), Right, Right, Right, Independent)
    else if num <= 64 then CellRule(Some(Tetragonal), Right, Right, Right, AEqualsB)
    else if num <= 80 then CellRule(Some(Hexagonal), Right, Right, Deg120, AEqualsB)
    else CellRule(None, Right, Right, Right, UnitAB)
  }

  /** `unique_axis` as `generate_lattice_1D` sets it; unset outside 3-12. */
  function RodUniqueAxis(num: int): (r: Option<Axis>)
    ensures r.Some? <==> 3 <= num <= 12
    ensures r.Some? ==> r.value == RodMonoclinicAxis(num)
  {
    if 3 <= num < 8 then Some(A)
    else if 8 <= num < 13 then Some(C)
    else None
  }

  /** The branch structure of `generate_lattice_1D` with the periodic axis c
      (PA = 3). A number above 75 takes no branch: the angles keep their
      90-degree defaults and a, b keep the value 1. Its unique-axis-a branch assigns the random angle to a
      misspelt variable (`alhpa`), so alpha keeps its 90-degree default. */
  function RodGroupCell(num: int): (r: CellRule)
    ensures r.family.None? <==> num > 75
    ensures r.family.Some? && !(3 <= num <= 7) ==> Conforms(r)
    ensures 1 <= num <= 75 ==> r.family == Some(FamilyOf(RodGroupSystem(num)))
    ensures 8 <= num <= 12 ==> AngleAt(r, RodMonoclinicAxis(num)) == Random
    ensures 3 <= num <= 7 ==> r == CellRule(Some(Monoclinic), Right, Right, Right, Independent)
    ensures num <= 2 ==> r.family == Some(Triclinic)
    ensures num > 75 ==> r == CellRule(None, Right, Right, Right, UnitAB)
  {
    if num <= 2 then CellRule(Some(Triclinic), Random, Random, Random, Independent)
    else if num <= 12 then
      match RodUniqueAxis(num)
      case Some(A) => CellRule(Some(Monoclinic), Right, Right, Right, Independent)
      case Some(B) => CellRule(Some(Monoclinic), Right, Random, Right, Independent)
      case Some(C) => CellRule(Some(Monoclinic), Right, Right, Random, Independent)
    else if num <= 22 then CellRule(Some(Orthorhombic), Right, Right, Right, Independent)
    else if num <= 41 then CellRule(Some(Tetragonal), Right, Right, Right, AEqualsB)
    else if num <= 75 then CellRule(Some(Hexagonal), Right, Right, Deg120, AEqualsB)
    else CellRule(None, Right, Right, Right, UnitAB)
  }

  /** The misspelt assignment leaves the inclined rod groups with an
      orthogonal cell, which is not a monoclinic cell at all. */
  lemma InclinedRodCellIsOrthogonal(num: int)
    requires 3 <= num <= 7
    ensures RodGroupCell(num).family == Some(Monoclinic)
    ensures !Conforms(RodGroupCell(num))
  {
  }

  /** `generate_lattice_1D` as its unique-axis-a branch evidently means it:
      alpha is the angle drawn at random. */
  function IntendedRodGroupCell(num: int): (r: CellRule)
    ensures r.family.None? <==> num > 75
    ensures r.family.Some? ==> Conforms(r)
    ensures 1 <= num <= 75 ==> r.family == Some(FamilyOf(RodGroupSystem(num)))
    ensures 3 <= num <= 12 ==> AngleAt(r, RodMonoclinicAxis(num)) == Random
    ensures !(3 <= num <= 7) ==> r == RodGroupCell(num)
  {
    if 3 <= num <= 7 then CellRule(Some(Monoclinic), Random, Right, Right, Independent)
    else RodGroupCell(num)
  }

  // ---------------------------------------------------------------------
  // The command-line range check

  datatype Validation = Accepted | Rejected(message: string)

  const SpaceGroupRangeMessage: string := "Invalid space group number. Must be between 1 and 230."
  const LayerGroupRangeMessage: string := "Invalid layer group number. Must be between 1 and 80."
  const RodGroupRangeMessage: string := "Invalid Rod group number. Must be between 1 and 75."
  const ClusterMessage: string := "0d clusters cannot currently be generated. Use dimension 1, 2, or 3."
  const DimensionMessage: string := "Invalid dimension. Use dimension 1, 2, or 3."

  /** The largest group number the script accepts in each dimension. */
  function MaxGroupNumber(dimension: int): nat
    requires 1 <= dimension <= 3
  {
    if dimension == 3 then 230 else if dimension == 2 then 80 else 75
  }

  /** The generator `generate_crystal` calls for each dimension: the space,
      layer or rod group cell. */
  function GroupCell(dimension: int, num: int): (r: CellRule)
    requires 1 <= dimension <= 3
    ensures 1 <= num <= MaxGroupNumber(dimension) ==> r.family == Some(FamilyOf(StandardSystem(dimension, num)))
    ensures 1 <= num <= MaxGroupNumber(dimension) ==> (Conforms(r) <==> !(dimension == 1 && 3 <= num <= 7))
    ensures dimension == 3 ==> r == SpaceGroupCell(num)
    ensures dimension == 2 ==> r == LayerGroupCell(num)
    ensures dimension == 1 ==> r == RodGroupCell(num)
  {
    if dimension == 3 then SpaceGroupCell(num)
    else if dimension == 2 then LayerGroupCell(num)
    else RodGroupCell(num)
  }

  /** The same dispatch with the rod-group branch as intended. */
  function IntendedGroupCell(dimension: int, num: int): (r: CellRule)
    requires 1 <= dimension <= 3
    ensures r.family == GroupCell(dimension, num).family
    ensures r.family.Some? ==> Conforms(r)
    ensures !(dimension == 1 && 3 <= num <= 7) ==> r == GroupCell(dimension, num)
    ensures dimension == 1 ==> r == IntendedRodGroupCell(num)
  {
    if dimension == 1 then IntendedRodGroupCell(num) else GroupCell(dimension, num)
  }

  function StandardSystem(dimension: int, num: int): CrystalSystem
    requires 1 <= dimension <= 3 && 1 <= num <= MaxGroupNumber(dimension)
  {
    if dimension == 3 then SpaceGroupSystem(num)
    else if dimension == 2 then LayerGroupSystem(num)
    else RodGroupSystem(num)
  }

  /** The dimension and group-number check of the script's main block; a
      rejection prints the message and exits. */
  function ValidateGroup(dimension: int, num: int): (r: Validation)
    ensures r.Accepted? <==> 1 <= dimension <= 3 && 1 <= num <= MaxGroupNumber(dimension)
    ensures r.Accepted? ==> GroupCell(dimension, num).family == Some(FamilyOf(StandardSystem(dimension, num)))
    ensures r.Accepted? ==> (Conforms(GroupCell(dimension, num)) <==> !(dimension == 1 && 3 <= num <= 7))
    ensures r.Accepted? ==> IntendedGroupCell(dimension, num).family == GroupCell(dimension, num).family
    ensures r.Accepted? ==> Conforms(IntendedGroupCell(dimension, num))
    ensures r.Rejected? && dimension == 3 ==> r.message == SpaceGroupRangeMessage
    ensures r.Rejected? && dimension == 2 ==> r.message == LayerGroupRangeMessage
    ensures r.Rejected? && dimension == 1 ==> r.message == RodGroupRangeMessage
    ensures r.Rejected? && dimension == 0 ==> r.message == ClusterMessage
    ensures r.Rejected? && !(0 <= dimension <= 3) ==> r.message == DimensionMessage
  {
    if dimension == 3 then
      if num < 1 || num > 230 then Rejected(SpaceGroupRangeMessage) else Accepted
    else if dimension == 2 then
      if num < 1 || num > 80 then Rejected(LayerGroupRangeMessage) else Accepted
    else if dimension == 1 then
      if num < 1 || num > 75 then Rejected(RodGroupRangeMessage) else Accepted
    else if dimension == 0 then
      Rejected(ClusterMessage)
    else
      Rejected(DimensionMessage)
  }
}
