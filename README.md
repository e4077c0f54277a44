# PyXtal crystal generation: the discrete core

PyXtal builds random crystals from a symmetry group and a list of atom
counts. This project models the parts of `pyxtal/crystal.py` that are
discrete: no geometry or floating point is involved. It proves what those
parts promise.

- **Connected components** (`Components.dfy`). `connected_components` groups
  the atom indices of a neighbour graph into connected components. It does
  this with the recursive depth-first search `add_neighbors`. Both are
  imperative methods over sequences, and both are proved against a
  reachability specification. The graph is a list of neighbour lists, and
  a component is a list of indices.
- **Centring multiplicity** (`Centering.dfy`). `cellsize` gives the number
  of lattice points in the conventional cell, read from the lattice letter
  of the space-group symbol. It returns an error string for an unknown
  letter.
- **Lattice branches** (`Lattice.dfy`). Each of `generate_lattice`,
  `generate_lattice_2D` and `generate_lattice_1D` takes one branch for a
  group number. The model states what that branch fixes:
  - the crystal family;
  - which of alpha, beta and gamma are 90 degrees, 120 degrees or random;
  - which lengths are forced equal.

  This is compared with the crystal families of the space, layer and rod
  groups in International Tables for Crystallography, Volumes A and E.
  The file also models the dimension and group-number check in the
  script's main block.
- **Choosing a Wyckoff position** (`Wyckoff.dfy`). A Wyckoff position is a
  list of symmetry operations, and its multiplicity is the length of that
  list. The organized table is a list of groups of positions.
  `choose_wyckoff` picks a position that fits the number of atoms still to
  place. It takes one of two strategies, chosen by a coin flip:
  - the first fitting group, high to low;
  - any fitting position.
- **Compatibility** (`Compatibility.dfy`). `check_compatible` decides
  whether atom counts can be spread over the Wyckoff positions. Its greedy
  loops are proved against closed-form functions of what they compute, so
  the answer is fully determined. The proofs also establish three things:
  - a count that is not a multiple of the smallest multiplicity is
    refused;
  - when the last position has no zero rotation entry, every other
    non-empty list of counts is accepted with True (an empty list gives
    `0`);
  - any answer other than False comes with a placement of every species in
    which no fixed position is used twice.

## Model

| member | source | states |
|---|---|---|
| Components.AddNeighbors | pyxtal/crystal.py:456-469 | The result extends the list it was given. It is duplicate-free and holds el. It lists every neighbour of el. Every index it adds has its neighbours listed and is reachable from el. Started from an empty list, it is exactly the component of el, with el first. |
| Components.ConnectedComponents | pyxtal/crystal.py:438-485 | Each entry is a non-empty, duplicate-free, neighbour-closed list of the indices reachable from its first element. Every index lies in some entry. Seeds strictly decrease, and no seed lies in an earlier entry. Each entry starts at the largest index that is in no earlier entry. For a symmetric (undirected) graph the entries are pairwise disjoint and each seed is the largest index of its entry. There are at most as many entries as vertices. |
| Components.ComponentIsReachableSet | pyxtal/crystal.py:440-444 | An index belongs to a component exactly when it is reachable from the component's first index, directly or indirectly. |
| Components.ComponentsDisjoint | pyxtal/crystal.py:440-444 | In an undirected graph, two components whose seeds are not shared have no index in common. |
| Components.ReachableSymmetric | pyxtal/crystal.py:440 | In an undirected graph, reachability is symmetric. |
| Components.CollectComponent | pyxtal/crystal.py:478-483 | The new entry is the searched component, in search order. `unseen` stays strictly increasing and loses exactly the component's indices. |
| Components.Remove | pyxtal/crystal.py:483 | `unseen.remove(y)` removes exactly one occurrence of y: the length drops by one and the multiset loses one y. |
| Components.RemoveFirst | pyxtal/crystal.py:483 | The element `unseen.remove(y)` drops is the first occurrence of y. The elements before and after it keep their order. |
| Components.RemoveSorted | pyxtal/crystal.py:483 | Removing from the strictly increasing `unseen` list keeps it strictly increasing. Exactly the removed index disappears. |
| Components.Indices | pyxtal/crystal.py:472 | `list(range(n))` has length n and holds i at position i. |
| Centering.CellSize | pyxtal/crystal.py:366-388 | A count is returned exactly for the letters P, A, C, I, R and F, otherwise the error message. The count lies between 1 and 4. It equals the number of centring translations of that lattice letter. |
| Lattice.SpaceGroupCell | pyxtal/crystal.py:579-629 | Every branch gives a conventional cell of its family. For groups 1-230 that family is the crystal family of the group. A monoclinic cell has beta as its random angle. The number is not range-checked: anything up to 2 is triclinic and anything above 194 cubic. |
| Lattice.LayerUniqueAxis | pyxtal/crystal.py:675-676 | The unique axis is set exactly for layer groups 3-18. It is c for the oblique groups and a for the rectangular ones. |
| Lattice.LayerGroupCell | pyxtal/crystal.py:686-767 | A family is chosen exactly for numbers up to 80. The chosen cell conforms to that family, and for 1-80 the family is that of the layer group. The monoclinic groups have their unique-axis angle random. Anything up to 2 is triclinic. Above 80 no branch is taken: no family, all angles 90 degrees, and a, b left at 1. |
| Lattice.RodUniqueAxis | pyxtal/crystal.py:816-817 | The unique axis is set exactly for rod groups 3-12. It is a for the inclined groups and c for the orthogonal ones. |
| Lattice.RodGroupCell | pyxtal/crystal.py:827-909 | A family is chosen exactly for numbers up to 75, and for 1-75 it is that of the rod group. Cells conform to their family except for groups 3-7, where the cell is monoclinic with all three angles at 90 degrees and independent lengths. Groups 8-12 have their unique-axis angle random. Anything up to 2 is triclinic. Above 75 no branch is taken: no family, all angles 90 degrees, and a, b left at 1. |
| Lattice.InclinedRodCellIsOrthogonal | pyxtal/crystal.py:847-851 | For rod groups 3-7, the cell as written is labelled monoclinic but is not a monoclinic cell. |
| Lattice.IntendedRodGroupCell | pyxtal/crystal.py:847-851 | With alpha drawn at random, every rod-group cell conforms to its family. The family is that of the rod group, and the unique-axis angle is random for all of 3-12. Outside 3-7 it agrees with the cell as written. |
| Lattice.GroupCell | pyxtal/crystal.py:1123-1128 | The dispatch of `generate_crystal` as written: 3 goes to the space-group cell, 2 to the layer-group cell, 1 to the rod-group cell. For an in-range number the family is that of the standard tables. The cell conforms to it exactly when the group is not rod group 3-7, which keeps the `alhpa` cell. |
| Lattice.IntendedGroupCell | pyxtal/crystal.py:1123-1128 | The same dispatch with `IntendedRodGroupCell` for dimension 1. It picks the same family as the dispatch as written, every cell with a family conforms, and it differs from the dispatch as written only for rod groups 3-7. |
| Lattice.ValidateGroup | pyxtal/crystal.py:1357-1374 | A group is accepted exactly for dimension 1, 2 or 3 with a number from 1 up to 230, 80 or 75. For an accepted group, the generator `generate_crystal` calls (pyxtal/crystal.py:1123-1128) picks the family of the standard tables. Its cell conforms to that family exactly when the group is not rod group 3-7. With the rod-group branch as intended, every accepted group gets a conforming cell of the same family. Each rejection carries the message of its dimension. |
| Wyckoff.EligibleMembers | pyxtal/crystal.py:950-955 | A position is in `good_wyckoff` exactly when some group whose multiplicity fits the number holds it. |
| Wyckoff.FirstFitIsLargest | pyxtal/crystal.py:933-935 | In an organized table, a position from the first fitting group has the largest multiplicity of all fitting positions. |
| Wyckoff.ChooseWyckoff | pyxtal/crystal.py:929-959 | Nothing is chosen exactly when no group fits. A choice is a fitting position. When every group has a single multiplicity, the choice is within the number of atoms still needed. High to low, it comes from the first fitting group, and in an organized table it has the largest multiplicity available. |
| Compatibility.TakePosition | pyxtal/crystal.py:1078-1086 | One turn of the greedy `while` loop keeps the history of positions taken sound. `removed_wyckoffs` stays the list of fixed positions taken, and `has_freedom` stays accurate. |
| Compatibility.FreeSpecies | pyxtal/crystal.py:1068-1071 | A species let through because the last position has no zero rotation entry can be placed by copies of that position. This keeps the history sound. |
| Compatibility.TakeWhileFits | pyxtal/crystal.py:1078-1086 | The `while` loop for one position wp leaves exactly this. A fixed wp that fits and is not in `removed_wyckoffs` is taken once: what remains drops by its multiplicity and wp joins the list. A free wp that fits is taken as often as it fits: what remains becomes its remainder modulo the multiplicity, and `has_freedom` is set. Otherwise nothing changes. What remains plus the multiplicities taken is unchanged, and the history of positions taken stays sound. |
| Compatibility.TakeOnce | pyxtal/crystal.py:1078-1086 | One turn of the `while` loop does not change what the whole loop leaves. |
| Compatibility.ScanGroup | pyxtal/crystal.py:1076-1086 | The loop over the positions of one group leaves what that closed form gives, applied position after position. What remains plus the multiplicities taken is unchanged, and the history stays sound. If the group's last position is free, what remains is less than its multiplicity. |
| Compatibility.Reduce | pyxtal/crystal.py:1073-1086 | The greedy reduction of one count leaves what the closed form gives, applied group after group. What remains plus the multiplicities taken equals the count. Every position taken is from the table, and no fixed position is taken twice over all species. `removed_wyckoffs` and `has_freedom` stay accurate. |
| Compatibility.ScanKeepsFixed | pyxtal/crystal.py:1082-1084 | The scan of a group only ever adds fixed positions to `removed_wyckoffs`. |
| Compatibility.GreedyKeepsFixed | pyxtal/crystal.py:1082-1084 | The reduction over the table only ever adds fixed positions to `removed_wyckoffs`. |
| Compatibility.GreedyLastFree | pyxtal/crystal.py:1073-1086 | If the last position is free, the reduction leaves less than the smallest multiplicity. |
| Compatibility.CheckSpecies | pyxtal/crystal.py:1063-1088 | The species body refuses a count exactly as the source does. A count that is not a multiple of the smallest multiplicity is refused. When the last position has no zero rotation entry, a multiple is let through and `has_freedom` is set. Otherwise the count is let through exactly when the greedy reduction leaves nothing, and `removed_wyckoffs` and `has_freedom` are what it leaves. A count let through is placed exactly by the positions taken, and the history stays sound. |
| Compatibility.MisfitDecide | pyxtal/crystal.py:1063-1066 | A count that is not a multiple of the smallest multiplicity makes the answer False, whatever the species before it. |
| Compatibility.FreeTableDecide | pyxtal/crystal.py:1063-1071 | When the last position has no zero rotation entry and every count is a multiple of the smallest multiplicity, the answer is True if there is at least one species, or if `has_freedom` was already set. |
| Compatibility.CheckCompatible | pyxtal/crystal.py:1053-1093 | The answer is the one the species loop determines, species by species, with `removed_wyckoffs` and `has_freedom` carried along. A count that is not a multiple of the smallest multiplicity gives False. If the last position has no zero rotation entry and every count is a multiple, a non-empty list gives True. Any answer other than False comes with a placement of every species by table positions whose multiplicities add up to its count, with no fixed position used twice. On `0`, all positions are fixed. On True, the placement uses a free position, or the last position has no zero rotation entry. |

## Left out

- Floating point and randomness: lengths, random angles, volumes, `random_vector`, shear matrices and the acceptance test on angles and ratios are not modelled. The generators are reduced to the discrete decisions of their branches.
- The coin `rand_u(0,1) > 0.5` in `choose_wyckoff` is a parameter, and `choose` is any member of its list.
- `generate_lattice_2D` and `generate_lattice_1D` set `NPA = 3` and `PA = 3` as local constants (pyxtal/crystal.py:673 and :814). Only that axis c is modelled. The branches for axis a or b can never run.
- Centering.CellSize: takes the space-group symbol rather than the number, because the symbol table (`sg_symbol_from_int_number`) is not part of this model.
- Compatibility.CheckCompatible: reads `numIons` and `wyckoffs_organized` as parameters. Counts are natural numbers, so negative counts are not modelled. Rotation parts have integer entries, so `np.allclose` to zero is exact equality with zero. Positions are compared by exact equality of their operations.
- Compatibility.CheckCompatible: does not promise the converse. A False answer does not prove that no placement exists, because the greedy reduction can miss one.
- Components.ConnectedComponents: disjointness and the largest-seed property are stated only for symmetric graphs. For a directed neighbour list the source gives no such promise.
- The use of `cellsize` in the conventional-cell atom counts, `find_short_dist`, `merge_coordinate`, `estimate_volume` and the retry loops of `generate_crystal` are not part of this model.
- Python's recursion limit in `add_neighbors` is not modelled.
- Wyckoff.ChooseWyckoff: requires every group to be non-empty. An empty group makes the source raise IndexError at pyxtal/crystal.py:947 or :953; from high to low, an empty group after the first fitting one is never read. That error path is not modelled.
- Centering.CellSize: requires a non-empty symbol. An empty symbol makes the source raise IndexError at pyxtal/crystal.py:379; that error path is not modelled.
- Compatibility.CheckCompatible: requires every position to be non-empty. On the free path (pyxtal/crystal.py:1070-1071) the source accepts an empty position other than the last without error, because the greedy that reads `wp[0]` never runs. The model does not cover that case.
- Components.ConnectedComponents: requires every neighbour index to be below the number of atoms. An index out of range makes the source raise IndexError at pyxtal/crystal.py:464 or :468; that error path is not modelled.
- Printing, option parsing and `sys.exit` in the main block are not modelled. A rejection is returned together with its message.

## Findings

| source | as written | input that shows it | evidently intended | confidence | as-written member | corrected member |
|---|---|---|---|---|---|---|
| pyxtal/crystal.py:849-851 | The unique-axis-a branch of `generate_lattice_1D` assigns the random angle to `alhpa`. Alpha keeps its 90-degree default, and `x = sin(alpha)` is 1. | rod group 3: all three angles are 90 degrees, an orthogonal cell labelled monoclinic | alpha drawn at random, as beta and gamma are in the sibling branches | high (not executed) | Lattice.InclinedRodCellIsOrthogonal | Lattice.IntendedRodGroupCell |

`Lattice.GroupCell` is the dispatch as written. `Lattice.IntendedGroupCell` uses the corrected rod-group cell, and `Lattice.ValidateGroup` states what each one gives.
