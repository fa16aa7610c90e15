# Verification of the tiling pass and of its polyhedral library

This project models, in Dafny, the algorithms behind a loop tiling pass: the pass itself
(`polyhedralpass.cpp`) and the parts of the vendored isl library that turn integer affine
objects into other affine objects and into ASTs. Integers are unbounded, as `isl_int` is.
A rational affine expression is a vector of integer coefficients over a positive
denominator; its variables may be integer divisions `floor(e/d)` of earlier ones. Points
are sequences of integers and sets are lists of lists of affine constraints.

What the modelled code asks of other parts of isl (emptiness, subset, minimum, hull, gist,
linear programs, sampling) is a value of function fields, `SetOps`, `Solver` or
`MergeOps`, together with a predicate that says what each answer means. `Oracles`
exhibits an instance of each, so none of these predicates is empty.

Code that updates fields, arrays or lists step by step is a class or a method over arrays
whose contract states the new state. Code that only builds values is a function. The
`...State` modules hold the loops of the AST generator and state that they compute what
the functions of the module they are named after define; the meaning is proved of those.

| part | modules |
|---|---|
| loop nests, reordering, the pass | `LoopNest`, `Reordering`, `PolyhedralPass` |
| affine expressions, build contexts | `Arith`, `QuasiAffine`, `Gcd`, `AstExpr`, `AstBuild` |
| expressions and sets to AST expressions | `AstFromAff`, `AstFromAffProof`, `AstFromSet`, `AstFromPwAff`, their `State` modules, `AstDivisions`, `AstForms` |
| from AST to C text and back | `CPrint`, `CPrintProof`, `CPrintLexing`, `CPrintExact`, `AstPrinted` |
| guarded code | `Graft` |
| exact linear algebra | `RowSpan`, `AffineHull`, `ExtendHull`, `BasisReduction`, `StaleFlag`, `Bernstein` |
| quasi-affine arithmetic | `AffDivs`, `AffNormal`, `AffFloor`, `Preimage`, `ListOpt` |
| YAML documents | `Yaml` |
| oracles that meet the laws | `Oracles` |

`dafny verify dfyconfig.toml` checks the whole project.

## Model

| member | source | states |
|---|---|---|
| Reordering.ReorderPreservesMemory | polyhedralpass.cpp:484-511 | any permutation of the iterations that keeps conflicting pairs in order ends in the same memory |
| Reordering.StraightLineFramed | polyhedralpass.cpp:310-340 | the accesses collected from a straight-line body are all that it reads and changes |
| Reordering.CollectMemoryAccesses | polyhedralpass.cpp:310-340 | the loop over the body collects its loads and stores in program order |
| LoopNest.NextStride | polyhedralpass.cpp:277-280 | the values of a loop are those at multiples of its step from the lower bound |
| LoopNest.EnumerateMembers | polyhedralpass.cpp:674-736 | a nest of original, tile and clamped point loops visits exactly the vectors whose every value belongs to its loop |
| LoopNest.EnumerateSorted | polyhedralpass.cpp:674-736 | and visits them in lexicographic order |
| LoopNest.TileOfIsOrigin | polyhedralpass.cpp:674-694 | every point of the extent lies in a tile that the bottom-tested tile loop visits |
| LoopNest.TileUnique | polyhedralpass.cpp:720-736 | and in no other |
| PolyhedralPass.LegalOrderPreservesMemory | polyhedralpass.cpp:484-542 | without negative distances, every order that visits the box once and respects the componentwise order keeps the final memory |
| PolyhedralPass.InterchangePreservesMemory | polyhedralpass.cpp:548-605 | interchanging loops of an accepted nest keeps the final memory, for every depth, bounds, accesses and body |
| PolyhedralPass.TilingPreservesMemory | polyhedralpass.cpp:652-742 | tiling all loops, after any interchange and for every tile size, keeps the final memory |
| PolyhedralPass.TilingVisitsBoxOnce | polyhedralpass.cpp:674-736 | the tiled nest visits every point once, by tile origin and then by point, also for extents that are empty or no multiple of the tile size |
| PolyhedralPass.LoopNestState.IsRectangular | polyhedralpass.cpp:363-378 | accepts exactly unit steps and bounds without enclosing loop variables |
| PolyhedralPass.LoopNestState.IsTilingLegal | polyhedralpass.cpp:513-542 | accepts exactly bands of depth 2 or more without a dependence of negative distance |
| PolyhedralPass.LoopNestState.ApplyLoopInterchange | polyhedralpass.cpp:548-607 | swaps bounds and payload uses but not the loops' own variables; refuses loops of different type; the nest stays a rearrangement of the original |
| PolyhedralPass.BestSymbol | polyhedralpass.cpp:612-633 | the loops over the accesses and the scores find a variable that occurs most often in the last subscripts, if any does |
| PolyhedralPass.LoopNestState.OptimizeLoopOrder | polyhedralpass.cpp:609-650 | the loop that is picked is the first one over a variable that occurs most often in the last subscripts, or loop 0 when that is no loop variable; it is exchanged with the innermost loop exactly when it is another loop of the same type |
| PolyhedralPass.LoopNestState.ApplyPolyhedralTiling | polyhedralpass.cpp:652-742 | the emitted loops are the tile loops followed by the clamped point loops |
| PolyhedralPass.LoopNestState.Run | polyhedralpass.cpp:761-818 | the final memory never changes; exactly the accepted nests are reordered, if interchange is on, and tiled, if blocking is on; a change is reported exactly then |
| PolyhedralPass.OptimizeNest | polyhedralpass.cpp:761-818 | the same for straight-line code, with the dependences and scores of the accesses collected from it |
| AstFromAffProof.FindNonnegSound | isl/isl_ast_build_expr.c:1080-1155 | what is found among the constraints of the domain is non-negative there and agrees with the argument, or its opposite, modulo the divisor |
| AstFromAffProof.StolenEnough | isl/isl_ast_build_expr.c:78-151 | after stealing from the constant term the argument of the division is non-negative on the domain |
| AstFromAffProof.ExtractModulosMeans | isl/isl_ast_build_expr.c:1313-1391 | moving modulos out of an expression keeps its value at every point of the domain |
| AstFromAffProof.VarDivMeans | isl/isl_ast_build_expr.c:202-241 | each of the four forms of a division, with the coefficient and constant it leaves, has the value of the floor |
| AstPrinted.VarDivForm | isl/isl_ast_build_expr.c:202-241 | `fdiv_q` is written exactly when `pdiv` is not preferred, or neither argument can be made non-negative |
| AstPrinted.AffWithoutPdiv | isl/doc/user.pod:12406-12416 | with the option off no `pdiv_q` or `pdiv_r` occurs anywhere in a generated expression |
| AstPrinted.SetWithoutPdiv | isl/doc/user.pod:12406-12416 | nor in that of a set |
| AstPrinted.PwAffWithoutPdiv | isl/doc/user.pod:12406-12416 | nor in that of a piecewise expression |
| AstPrinted.FloorsAreNeeded | isl/isl_ast_build_expr.c:167-200 | with the option on every `fdiv_q` is the floor of a division that is negative somewhere in the domain, as is its opposite |
| AstDivisions.MultipleIsRemainder | isl/isl_ast_build_expr.c:1217-1391 | a multiple of its divisor times a division is written with `pdiv_r` when the argument or its opposite is non-negative, or a constraint of the domain agrees with one modulo the divisor |
| AstDivisions.SearchFinds | isl/isl_ast_build_expr.c:1080-1155 | one constraint that agrees is enough for the search to find a non-negative argument |
| AstFromAffProof.FromAffMeans | isl/isl_ast_build_expr.c:1575-1603 | the AST evaluates to the affine expression wherever that is an integer in the build domain, and every `pdiv`, `div` and `fdiv` in it gets arguments of its kind |
| AstFromAffState.ParallelStat.ScanFeasible | isl/isl_ast_build_expr.c:857-991 | the loop over the coefficients computes the scan that `AstFromAff` defines |
| AstFromAffState.ExtractModData.TryExtractMod | isl/isl_ast_build_expr.c:1217-1280 | the update of the fields is the one `AstFromAff` defines |
| AstFromAffState.ExtractModData.ExtractModulos | isl/isl_ast_build_expr.c:1350-1391 | the loop over the divisions, with its state, computes `AstFromAff.ExtractModulos` |
| AstFromAffState.AddTermData.VarDiv | isl/isl_ast_build_expr.c:202-241 | the expression, coefficient and constant are those of `AstFromAff.VarDiv`, whose value and form are proved |
| AstFromAffState.FromAff | isl/isl_ast_build_expr.c:1575-1603 | the imperative generator returns `AstFromAff.FromAff` |
| AstFromSet.FromConstraintDecides | isl/isl_ast_build_expr.c:1922-1953 | the generated comparison, or stride test, holds exactly where the constraint does |
| AstForms.StrideWritten | isl/isl_ast_build_expr.c:1779-1800 | an equality that is a stride is written as a `zdiv_r` that is zero |
| AstFromSet.FromBasicSetDecides | isl/isl_ast_build_expr.c:1991-2035 | the conjunction is exact although each conjunct is generated assuming the earlier ones |
| AstFromSet.FromSetDecides | isl/isl_ast_build_expr.c:2058-2105 | the disjunction is exact although each disjunct is simplified within the hull of what the earlier ones leave |
| AstFromSetState.FromBasicSet | isl/isl_ast_build_expr.c:1991-2035 | the loop over the constraints computes `AstFromSet.FromBasicSet` |
| AstFromSetState.FromSet | isl/isl_ast_build_expr.c:2058-2105 | the loop over the disjuncts computes `AstFromSet.FromSet` |
| AstFromPwAff.ExtendGroupMeans | isl/isl_ast_build_expr.c:2596-2749 | a group that takes in a piece, in any of the states, still has the value of every piece on that piece's domain |
| AstFromPwAff.BuildPiecesMeans | isl/isl_ast_build_expr.c:2480-2524 | nested selects without the last condition choose a group with the right value |
| AstFromPwAff.FromPwAffMeans | isl/isl_ast_build_expr.c:2701-2781 | the generated expression has the value of the piecewise expression at every point of its domain in the build domain |
| AstForms.ExtendsIff | isl/isl_ast_build_expr.c:2596-2683 | a piece can join a minimum (maximum) exactly when the option is on, nothing is rational, and each expression is the smallest (largest) on its own set |
| AstForms.ExtremumDetected | isl/isl_ast_build_expr.c:2701-2749 | two such pieces become one minimum or maximum |
| AstPrinted.PwAffWithoutMinMax | isl/isl_ast_build_expr.c:2588-2615 | with the option off no minimum or maximum occurs |
| AstFromPwAffState.FromPwAffData.AddPiece | isl/isl_ast_build_expr.c:2701-2749 | the state machine over the array of pieces computes `AstFromPwAff.AddPiece` |
| AstFromPwAffState.FromPwAff | isl/isl_ast_build_expr.c:2756-2781 | so the imperative generator returns `AstFromPwAff.FromPwAff` |
| AstPrinted.AffText | isl/isl_ast_build_expr.c:1575-1603 | the C text printed for an affine expression, read by the grammar of C, has the value of that expression |
| AstPrinted.SetText | isl/isl_ast_build_expr.c:2058-2105 | the C text printed for a set is true exactly on the set |
| AstPrinted.PwAffText | isl/isl_ast_build_expr.c:2756-2781 | the C text printed for a piecewise expression has its value |
| Graft.RunExtendAt | isl/isl_ast_graft.c:463-522 | a node added to a branch of an if node deep in the tree runs last, exactly when that branch is reached |
| Graft.FindPlace | isl/isl_ast_graft.c:619-655 | finds the innermost if node one of whose branches holds the whole guard, the then branch if it can, else branches only if allowed |
| Graft.InsertPendingGuardNodes | isl/isl_ast_graft.c:589-704 | at every point of the build domain the resulting list runs exactly the nodes whose guards hold, in input order; every graft is at the innermost place that is open and holds its guard, with its guard simplified for that place, and only the others are new elements; without permission there are no else branches |
| Graft.NestsInPrevious | isl/isl_ast_graft.c:573-588 | a graft right after one that got an if node goes into that node if its guard fits one of the branches |
| Graft.SizeOfAssembled | isl/isl_ast_graft.c:573-588 | the list has one element for each graft that fits nowhere |
| Graft.MoveUp | isl/isl_ast_graft.c:1257-1339 | a graft may move past grafts with disjoint guards |
| Graft.Fuse | isl/isl_ast_graft.c:895-993 | fusing two grafts runs the first and then the second, under the hoisted guard |
| Graft.FindSlot | isl/isl_ast_graft.c:1283-1315 | the slot is as far up as the graft can move past larger disjoint guards, behind every earlier element of the second list; 0 is returned exactly when the graft before it has an equal guard |
| Graft.MergeOne | isl/isl_ast_graft.c:1283-1332 | the graft is fused with the one before its slot exactly when their guards are equal, else inserted; the result runs the list and then the graft |
| Graft.Merge | isl/isl_ast_graft.c:1257-1339 | running the merged list is running the first list and then the second, and each graft of the second is merged as `MergeOne` says |
| AffineHull.BasicSet.DeleteRow | isl/isl_affine_hull.c:96-106 | the row is removed and the others keep their order |
| AffineHull.SetCommonMultiple | isl/isl_affine_hull.c:74-92 | both rows are scaled by non-zero factors that make their entries in the column equal |
| AffineHull.ConstructSpan | isl/isl_affine_hull.c:117-147 | the combination of rows keeps the intersection of the two row spans |
| AffineHull.TransformSpan | isl/isl_affine_hull.c:158-195 | so does the one for two columns that differ |
| AffineHull.ConstructColumn | isl/isl_affine_hull.c:117-147 | the rows that the loop leaves in place in both systems |
| AffineHull.TransformColumn | isl/isl_affine_hull.c:158-195 | the last row in which the columns differ, and the rows that the loop leaves |
| AffineHull.AffineHull | isl/isl_affine_hull.c:202-249 | in place, the rows become an echelon basis of exactly the intersection of the two row spans, and the row counter ends at the number of rows |
| ExtendHull.OutsidePoint | isl/isl_affine_hull.c:266-315 | finds a point of the set off the hyperplane on the wanted side, or none exists; the row is restored |
| ExtendHull.AddAdjacentPoints | isl/isl_affine_hull.c:361-406 | neighbours that are added keep the hull that of the points found; the sample is restored |
| ExtendHull.StrictlyLarger | isl/isl_affine_hull.c:421-473 | an outside point strictly lowers the number of equalities |
| ExtendHull.HullSize | isl/isl_affine_hull.c:421-473 | so there are never more rounds than variables |
| ExtendHull.HullComplete | isl/isl_affine_hull.c:421-473 | a hull that no point of the set is outside of holds exactly the equalities of the whole set |
| ExtendHull.ExtendAffineHull | isl/isl_affine_hull.c:421-473 | ends with exactly the equalities that hold at all integer points of the set |
| ExtendHull.AffineHullBounded | isl/isl_affine_hull.c:498-566 | the same, starting from a single point |
| BasisReduction.AddRowLattice | isl/basis_reduction_templ.c:233-234 | adding a multiple of one row to another keeps the lattice |
| BasisReduction.SwapLattice | isl/basis_reduction_templ.c:255-256 | so does exchanging two rows |
| BasisReduction.Reduction.Step | isl/basis_reduction_templ.c:168-290 | for every solver with non-negative widths an iteration keeps the lattice, the untouched rows, the counters and the exact stack of LP rows, and undoes no cut; it swaps exactly when that makes row i less than 3/4 as wide; a row is cut to and counted exactly when its place and the flag say so; for a sound solver the multiple is the best rounding of an optimal multiplier, and a reliable flag says exactly whether the row takes at most one integer value |
| BasisReduction.Reduction.Reduce | isl/basis_reduction_templ.c:21-36 | the same over any number of iterations; if all flags are reliable no integer point is lost by the cuts, every row that is counted takes one value on all of them, and there are none if a cut leaves nothing |
| BasisReduction.Reduction.Start | isl/basis_reduction_templ.c:131-149 | the first row is counted exactly when its width is less than 1, and no integer point is lost |
| BasisReduction.FixedIsOne | isl/basis_reduction_tab.c:190-208 | the flag of a solve is set exactly when there is at most one integer between the two values |
| BasisReduction.SettledCut | isl/basis_reduction_tab.c:214-244 | a cut to a row with at most one integer value keeps all integer points |
| BasisReduction.ReusableIff | isl/basis_reduction_templ.c:159-188 | a flag that is kept while the range moves is right however it moves if and only if the width is less than 1 or at least 2 |
| StaleFlag.FirstIterationLoses | isl/basis_reduction_templ.c:159-260 | a polygon for which the first iteration cuts an integer point off |
| StaleFlag.WidthOfY | isl/basis_reduction_tab.c:179-212 | the widths and the flag the solver finds for that polygon |
| StaleFlag.Multiplier | isl/basis_reduction_tab.c:282-287 | and the multiplier, which is unique |
| Bernstein.IsTight | isl/isl_bernstein.c:107-125 | true exactly for the exponents of an integral vertex, or degree 0 |
| Bernstein.DivisionExact | isl/isl_bernstein.c:208-214 | every intermediate division of the multinomial is exact |
| Bernstein.ExtractCoefficients | isl/isl_bernstein.c:159-252 | the backtracking loop emits the exponent vectors in order, each with its multinomial coefficient and tightness |
| Bernstein.EachOnce | isl/isl_bernstein.c:186-233 | which are all vectors of n non-negative exponents with sum d, each once, with divisor d!/(k0!...) |
| Gcd.GcdNatGreatest | isl/isl_local_space.c:1101-1123 | the common factor that is removed is the greatest |
| AffDivs.FloorFused | isl/isl_aff.c:1560-1602 | floor((f + floor(g/n))/m) is one floor |
| AffFloor.QuasiAff.PlugInIntegralDivs | isl/isl_aff.c:1514-1558 | keeps the numerator everywhere and leaves no reference to a division by one; computes `IntegralForm` |
| AffFloor.QuasiAff.PlugInUnitDivs | isl/isl_aff.c:1579-1602 | keeps the numerator everywhere; no division has its predecessor as a unit term; computes `UnitForm` |
| AffFloor.QuasiAff.SortDivs | isl/isl_aff.c:1609-1696 | keeps the numerator everywhere and only renumbers the divisions; they are sorted and of equal ones only the first has a coefficient |
| AffFloor.QuasiAff.RemoveUnusedDivs | isl/isl_aff.c:1477-1508 | keeps the numerator everywhere and the order of the divisions; every division that is left is used |
| AffFloor.QuasiAff.Normalize | isl/isl_aff.c:1704-1716 | keeps the value at every integer point; the divisions of the result are the used ones of the fused input, strictly sorted except for duplicates that other divisions refer to; none is a division by one if those of the input are in lowest terms |
| AffNormal.NormalUnits | isl/isl_aff.c:1560-1602 | no division of the result has its former predecessor as a unit term |
| AffNormal.NormalDistinct | isl/isl_aff.c:1638-1660 | the divisions of the result differ if and only if no division refers to one that equals an earlier one |
| AffNormal.FusedByOne | isl/isl_local_space.c:1101-1123 | fusing two divisions gives a division by one if and only if the product of their denominators divides all coefficients |
| AffNormal.UnitFormKeeps | isl/isl_aff.c:1579-1602 | fusing divisions in lowest terms gives none that is by one and used |
| AffNormal.FusedToOne | isl/isl_aff.c:1579-1602 | floor((3x + floor(1/2))/3) is fused to a division by one |
| AffNormal.DuplicatesSettled | isl/isl_aff.c:1638-1660 | an expression with two equal divisions on which no pass has anything to do |
| AffFloor.QuasiAff.KeepsDuplicate | isl/isl_aff.c:1704-1716 | so normalization keeps both |
| AffFloor.SplitByDenominator | isl/isl_aff.c:1753-1770 | quotients and remainders with remainders in (-m/2, m/2] |
| AffFloor.QuasiAff.TakeFloor | isl/isl_aff.c:1729-1788 | the value at every integer point is the floor of the argument's; the result is the normal form of the quotients plus one division, whose coefficients are the remainders in (-m/2, m/2] |
| Preimage.SubstitutedStep | isl/isl_aff.c:5958-5988 | replacing one variable keeps dst equal to f times the partly replaced expression, with the new factor |
| Preimage.SeqPreimage | isl/isl_aff.c:5944-6009 | dst is f times the composition with the map and its denominator f times the original one |
| Preimage.SameFraction | isl/isl_aff.c:5930-5943 | so dst is the composition as a rational function |
| ListOpt.GteSetContains | isl/isl_aff.c:3116-3150 | the compared set is where the difference is at least 0, or at least 1 when strict |
| ListOpt.OptMeans | isl/isl_aff.c:3870-3958 | the pieces are disjoint and optimal, and cover the shared domain exactly where the optimum is separated from what it must strictly beat |
| ListOpt.IntegersCovered | isl/isl_aff.c:3888-3908 | in particular wherever the values are integers |
| ListOpt.HalfNotCovered | isl/isl_aff.c:3116-3150 | min(x/2, 0) is undefined at x = 1 |
| ListOpt.ListOpt | isl/isl_aff.c:3909-3958 | the nested loops return pieces with the property of `OptMeans` |
| CPrint.PrintMinMax | isl/isl_ast.c:2313-2335 | opening all calls first and closing them one by one prints nested binary calls |
| CPrintProof.PrintReads | isl/isl_ast.c:2389-2467 | the text of a printable expression is read by the grammar of C as its tree |
| CPrintProof.PrintedValue | isl/isl_ast.c:2389-2467 | and has its value in every environment |
| CPrintLexing.TextMeans | isl/isl_ast.c:2088-2135 | with its spaces, the text also splits into those lexemes |
| CPrintLexing.MinusMinusFuses | isl/isl_ast.c:2404-2416 | -(-x) is printed with two minus signs that form one lexeme |
| CPrintLexing.NestedTestAmbiguous | isl/isl_ast.c:2436-2451 | a select that tests a select has the text of one nested in the other branch |
| CPrintExact.TextExact | isl/isl_ast.c:2389-2467 | an arithmetic expression is read back from its text exactly when it is printable |
| CPrintExact.NestedTestValues | isl/isl_ast.c:2436-2451 | an expression with value 3 whose text has value 0 |
| Yaml.NamesInOrder | isl/isl_ast.c:2472-2499 | the names of the operations |
| Yaml.FindsOp | isl/extract_key.c:16-46 | the loop over the names finds every operation |
| Yaml.ExprRoundTrip | isl/isl_ast.c:2510-2793 | a printed expression is read back exactly when all its operations have arguments |
| Yaml.RoundTrip | isl/isl_ast.c:2828-3559 | a printed node is read back exactly when in addition no else branch lacks a then branch; otherwise reading fails |
| Yaml.PrintInjective | isl/isl_ast.c:2550-2909 | two nodes with the same text are the same, if one can be read back |

## Findings

Properties that the code does not have, with the input and the exact condition.

- `isl_pw_aff_list_opt` (isl/isl_aff.c:3870-3958) is documented to be defined on the whole
  intersection of the domains. Breaking ties uses a strict comparison that subtracts 1
  from the difference (isl/isl_aff.c:3116-3150), which is only right for integer values.
  Input: the minimum of `x/2` and `0` at `x = 1` is in no piece (`ListOpt.HalfNotCovered`).
  The point is covered if and only if the optimum lies at least 1 below (above) every
  element it must strictly beat (`Separated`, in `ListOpt.OptMeans`).
- `print_ast_expr_c` (isl/isl_ast.c:2389-2467) puts no parentheses around an operand of a
  minus sign that itself starts with one: `-(-x)` is printed as `--x`
  (`CPrintLexing.MinusMinusFuses`). It puts none around the test of a conditional either:
  `(1 ? 0 : 1) ? 2 : 3`, which is 3, is printed as `1 ? 0 : 1 ? 2 : 3`, which is 0
  (`CPrintExact.NestedTestValues`). An arithmetic expression is read back as itself if and
  only if neither occurs in it (`CPrintExact.TextExact`). Neither occurs in what the AST
  generator emits (`AstPrinted`).
- The printer and reader of YAML expressions (isl/isl_ast.c:2510-2536, 2697-2713) do not
  agree on operations without arguments: the key `args` is not printed but is required.
  Nor do they on an if node with an else branch only (isl/isl_ast.c:2828-2909, 3464-3490).
  `Yaml.RoundTrip` holds if and only if neither occurs.

The loop nest in README.md:149-158 tests every loop at the top. The pass tests its tile
loops at the bottom (polyhedralpass.cpp:688-694), so a first tile is entered even when
the extent is empty. The model follows the code; the visited points are the same.

The basis reduction promises that the rows it counts are equalities of the set
(isl/basis_reduction_templ.c:21-36). The flag it uses (isl/basis_reduction_tab.c:190-208)
is computed at an optimum that agrees on row i. When the multiplier is an integer, that
multiple of row i is added without solving again (isl/basis_reduction_templ.c:184-188),
which moves the range by that multiple of the value of row i, and the flag is kept. Input:
the polygon `1 <= x + y <= 2`, `3x + y <= 7`, `y - x <= 5` with the identity as basis: the
first iteration cuts to `x + y = 1` and counts that row, and the point (0, 2) is lost
(`StaleFlag.FirstIterationLoses`). A kept flag of width w is right, however the range has
moved, if and only if `w < 1` or `w >= 2` (`BasisReduction.ReusableIff`); it is also right
when the range has moved by an integer. Under that condition `Step` and `Reduce` say that
nothing is lost. The basis itself is a basis of the same lattice in any case.

Normalizing an affine expression (isl/isl_aff.c:1704-1716) can leave equal divisions when
other divisions refer to them, since merging only adds coefficients of the expression
(`AffFloor.QuasiAff.KeepsDuplicate`; exactly then, `AffNormal.NormalDistinct`). It can
leave a division by one when the input has a division that is not in lowest terms
(`AffNormal.FusedToOne`); it does not otherwise.

## Left out

- PolyhedralPass.LoopNestState.OptimizeLoopOrder: the order in which equal scores are met, which is that of addresses, is a parameter.
- BasisReduction.Reduction.Reduce: bounds the number of iterations; that the loop ends and that the result is reduced needs more of linear programming than the code shows. The constant row and column of the basis are not modelled.
- AffFloor.QuasiAff.PlugInUnitDivs: unit terms on divisions before the predecessor are not claimed to be gone, because plugging in a later one can bring them back.
- AffFloor.QuasiAff.Normalize: that there is no division by one is stated for input in lowest terms only; the exact condition is given for each fusion (`AffNormal.FusedByOne`), not for a whole chain of them.
- AstFromPwAff.FromPwAffMeans: the coalescing and simplification of the input before the pieces are visited is not modelled.
- Graft.InsertPendingGuardNodes: the case where disjunctive conditions are not allowed (isl/isl_ast_graft.c:324-349), the `enforced` sets, and the aliasing of if nodes through pointers, which are paths here.
- ExtendHull.AffineHullBounded: unbounded sets and their recession cones, and the tableau behind the sampler.
- Bernstein.ExtractCoefficients: the polynomial arithmetic on the coefficients, and bounds over real simplices.
- Preimage.SeqPreimage: preimages of the integer divisions of a local space.
- ListOpt.ListOpt: NaN, and the removal of empty pieces.
- CPrintExact.TextExact: calls, array accesses, members and addresses, whose values are not modelled; `CPrintProof.PrintReads` covers their text.
- Yaml.RoundTrip: annotations, and the layout and separators of the stream.
- The rewriting of control flow graphs, PHI nodes and analyses in `polyhedralpass.cpp`; 64-bit overflow of coefficients; different bases that alias, or names that collide after sanitizing.
- One local space is used for a build and all its sets; the split of a build into generated and pending constraints is not modelled.
- Names of operations set by callbacks, macros, and the printing of nodes as C.
- `isl_aff_mod_val`, `isl_pw_aff_tdiv_q`, `isl_multi_aff_lex_gte_set` and expansion of divisions: compositions of what is modelled.
- Unknown integer divisions, NaN, reference counts and failed allocations.
