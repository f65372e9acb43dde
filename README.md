# nslfem-spring1d in Dafny

A model of the numeric core of nslfem-spring1d, a finite element solver for
one-dimensional systems of linear springs. The model covers:

- the model itself: nodes with an optional prescribed displacement and an
  applied force, and springs between two nodes;
- the assembly of the global stiffness matrix, the global force vector and
  the global displacement vector;
- the reduction of the system by the prescribed displacements (the
  boundary conditions);
- Gaussian elimination with partial pivoting and back substitution;
- the merge of the computed free displacements into the prescribed ones;
- the nodal forces K u, and the end forces of every spring.

All arithmetic is over exact `real` numbers. The containers (`DVector`,
`FVector`, `DMatrix`), the nodes and the FEM orchestrator are classes whose
fields the methods update in place. An `FDouble` (a real that may be
undefined) and a `Spring` (fixed at construction) are values.

Each method is proved against a specification function:

- `Elimination.Solve` specifies the linear solver;
- `FemModel.Assembled` specifies the global stiffness matrix;
- `FemModel.FreeStiffness` and `FemModel.FreeLoads` specify the reduced system;
- `FemModel.SolveModel` specifies the whole solve.

The properties the solver promises are lemmas about those functions:

- the global stiffness matrix is symmetric and its rows sum to zero;
- a rigid translation produces no forces;
- a successful solve satisfies every prescribed displacement and balances
  every free node, and it is the only such displacement field;
- a failed solve means the reduced system is singular, so no displacement
  field in equilibrium is unique;
- a model with no prescribed displacement is always rejected as singular;
- the deletion of constrained entries and the merge of the free
  displacements are inverse to each other.

Modules, one per file:

| module | file | models |
|---|---|---|
| Wrappers | wrappers.dfy | Option, Result and Outcome |
| Indexing | indexing.dfy | order-preserving deletion of indices |
| LinearAlgebra | linalg.dfy | dot product, matrix times vector, sub-matrices |
| FDoubles | fdouble.dfy | src/FDouble.cpp |
| DVectors | dvector.dfy | src/DVector.cpp |
| FVectors | fvector.dfy | src/FVector.cpp |
| DMatrices | dmatrix.dfy | src/DMatrix.cpp |
| Elimination | elimination.dfy | the mathematics of `DMatrix::gaussianElimination` |
| Nodes | node.dfy | src/Node.cpp |
| Springs | spring.dfy | src/Spring.cpp |
| FemModel | femmodel.dfy | the mathematics of assembly, boundary conditions and solve |
| Fem | fem.dfy | src/FEM.cpp |

## Model

| member | source | states |
|---|---|---|
| FDoubles.FDouble.Undefined | src/FDouble.cpp:26 | the default value is undefined, with stored value 0 |
| FDoubles.FDouble.Of | src/FDouble.cpp:28-31 | a value built from x is defined and reads back x |
| FDoubles.FDouble.Set | src/FDouble.cpp:45-49 | after set(x) the slot is defined and reads back x, whatever it held |
| FDoubles.FDouble.Unset | src/FDouble.cpp:51-55 | after unset the slot is undefined and its stored value is reset to 0 |
| FDoubles.FDouble.IsDefined | src/FDouble.cpp:57-60 | true exactly when the slot holds a value |
| FDoubles.FDouble.GetValue | src/FDouble.cpp:62-67 | only a defined slot may be read; it yields the stored value |
| FDoubles.FDouble.ToOption | src/FDouble.cpp:57-67 | the slot as an optional real: present exactly when defined, with the value getValue gives |
| FDoubles.SetOverwrites | src/FDouble.cpp:45-55 | a later set overwrites an earlier one; unset after set gives the default value |
| FDoubles.DefinedAtMeaning | src/FEM.cpp:153-155 | the predicate holds exactly at the in-range slots that hold a value |
| FDoubles.CountDefined | src/FVector.cpp:67-74 | the number of defined slots is at most the length |
| FDoubles.FreeSlotCount | src/FVector.cpp:67-74 | the defined slots and the free slots together are all the slots |
| Indexing.Survivors | src/DVector.cpp:128-151 | the kept indices are below n and fail the deletion predicate |
| Indexing.Pick | src/DVector.cpp:128-151 | the picked entries are the entries at the given positions, in that order |
| Indexing.SurvivorsMembership | src/DVector.cpp:128-151 | an index is kept exactly when it is in range and the predicate rejects it |
| Indexing.SurvivorsIncreasing | src/DMatrix.cpp:209-218 | the kept indices come in strictly increasing order, so the deletion keeps the original order |
| Indexing.SurvivorsPrefix | src/DVector.cpp:128-151 | the indices kept below m are a prefix of those kept below n, for m <= n |
| Indexing.SurvivorRank | src/FVector.cpp:93-118 | a kept index i sits at the position given by the number of kept indices below it |
| Indexing.RankOfSurvivor | src/FVector.cpp:93-118 | the k-th kept index has exactly k kept indices below it |
| LinearAlgebra.MatVec | src/DMatrix.cpp:362-376 | matrix times vector has one entry per row |
| LinearAlgebra.Submatrix | src/DMatrix.cpp:191-226 | the sub-matrix has the chosen rows and columns, with the entry at (a, b) taken from (rs[a], cs[b]) |
| LinearAlgebra.DotSplit | src/DVector.cpp:209-220 | the dot product splits at any position into the dot products of the two parts |
| LinearAlgebra.DotLinear | src/DMatrix.cpp:292-303 | the dot product is linear in its first argument: a row combination x + m y has dot product Dot(x, u) + m Dot(y, u) |
| DVectors.Resized | src/DVector.cpp:80-83 | resize keeps the prefix and pads with zeros |
| DVectors.DVector.Zero | src/DVector.cpp:26-29 | a new vector holds n zeros |
| DVectors.DVector.FromValues | src/DVector.cpp:34-37 | a new vector holds the given values |
| DVectors.DVector.Copy | src/DVector.cpp:42-45 | the copy holds the same entries |
| DVectors.DVector.Assign | src/DVector.cpp:58-67 | after the assignment the vector holds exactly the given values |
| DVectors.DVector.Size | src/DVector.cpp:72-75 | the size is the number of entries |
| DVectors.DVector.Resize | src/DVector.cpp:80-83 | the new entries are the resized old entries |
| DVectors.DVector.Get | src/DVector.cpp:156-171 | reading entry i, which must be in range |
| DVectors.DVector.Set | src/DVector.cpp:156-171 | writing entry i changes that entry only |
| DVectors.DVector.SwapElements | src/DVector.cpp:88-97 | entries i and j are exchanged and every other entry is unchanged |
| DVectors.DVector.ApplyBoundaryConditions | src/DVector.cpp:102-123 | keeps, in order, exactly the entries whose displacement slot is undefined; the new length is the number of undefined slots |
| DVectors.DVector.DeleteElements | src/DVector.cpp:128-151 | keeps, in order, exactly the entries whose index the predicate rejects |
| DVectors.DVector.KeptEntries | src/DVector.cpp:140-150 | the copying loop shared by both deletions yields, in order, exactly the entries whose index the predicate rejects |
| DVectors.DVector.Equals | src/DVector.cpp:176-179 | equal exactly when the lengths and every entry agree |
| DVectors.DVector.NotEquals | src/DVector.cpp:184-187 | the negation of equality |
| DVectors.DVector.DotProduct | src/DVector.cpp:209-220 | the accumulated sum is the dot product of the two vectors |
| DVectors.DotExamples | test/DVector-test.cpp:63-65 | the dot products 28, 46 and 56 of the original examples |
| FVectors.Merge | src/FVector.cpp:93-118 | the merged vector has one entry per slot, and a defined slot keeps its value |
| FVectors.MergeFillsFreeSlots | src/FVector.cpp:93-118 | the k-th undefined slot, in index order, receives the k-th given value |
| FVectors.MergeRoundTrip | src/FVector.cpp:93-118 | deleting the defined slots from the merged vector gives back the given values |
| FVectors.MergePick | src/FVector.cpp:93-118 | a full vector that carries the defined values is the merge of its own free entries |
| FVectors.FVector.constructor | src/FVector.cpp:31-34 | a new vector holds n undefined slots |
| FVectors.FVector.Size | src/FVector.cpp:59-62 | the size is the number of slots |
| FVectors.FVector.NumberOfDefinedElements | src/FVector.cpp:67-74 | the loop counts exactly the defined slots |
| FVectors.FVector.SetElement | src/FVector.cpp:79-84 | slot i becomes defined with the given value; the other slots are unchanged |
| FVectors.FVector.SetUndefinedElements | src/FVector.cpp:93-118 | the result is the merge of the slots with the given values; nothing else changes |
| FVectors.FVector.Get | src/FVector.cpp:123-138 | reading slot i, which must be in range |
| FVectors.FVector.SetSlot | src/FVector.cpp:123-138 | writing slot i changes that slot only |
| FVectors.NoneDefined | src/FVector.cpp:67-74 | a vector without defined slots counts zero defined slots |
| DMatrices.UnflattenEntry | src/DMatrix.cpp:152-169 | entry (r, c) is stored at flat position r * cols + c |
| DMatrices.UnflattenEqual | src/DMatrix.cpp:326-331 | two flat buffers of one shape are equal exactly when their matrices are |
| DMatrices.UnflattenFlatten | src/DMatrix.cpp:92-112 | flattening rows and reading them back gives the same matrix |
| DMatrices.FlattenEntry | src/DMatrix.cpp:92-112 | the flattened rows hold entry (r, c) at r * cols + c |
| DMatrices.DMatrix.Entries | src/DMatrix.cpp:152-169 | the flat row-major buffer read as a rows x cols matrix |
| DMatrices.DMatrix.Zero | src/DMatrix.cpp:26-32 | a new rows x cols matrix of zeros |
| DMatrices.DMatrix.FromRows | src/DMatrix.cpp:37-53 | a new matrix whose entries are the given rows |
| DMatrices.DMatrix.Copy | src/DMatrix.cpp:58-64 | the copy has the same shape and entries |
| DMatrices.DMatrix.Fill | src/DMatrix.cpp:92-112 | the row-by-row copy leaves the given entries in place |
| DMatrices.DMatrix.Assign | src/DMatrix.cpp:77-87 | the flat assignment stores the values in row-major order |
| DMatrices.DMatrix.AssignRows | src/DMatrix.cpp:92-112 | the shape and the entries become those of the given rows |
| DMatrices.DMatrix.Size | src/DMatrix.cpp:117-120 | the size is rows times columns |
| DMatrices.DMatrix.Cols | src/DMatrix.cpp:125-128 | the number of columns |
| DMatrices.DMatrix.Rows | src/DMatrix.cpp:133-136 | the number of rows |
| DMatrices.DMatrix.Resize | src/DMatrix.cpp:141-147 | the new shape, over the old flat buffer resized to rows times columns |
| DMatrices.DMatrix.At | src/DMatrix.cpp:152-169 | reading entry (r, c), which must be in range |
| DMatrices.DMatrix.Set | src/DMatrix.cpp:152-169 | writing entry (r, c) changes that entry only |
| DMatrices.DMatrix.SwapRows | src/DMatrix.cpp:174-186 | rows i and j are exchanged and nothing else changes |
| DMatrices.DMatrix.DeleteRowsAndColumns | src/DMatrix.cpp:191-226 | the result is the sub-matrix of the rows and the columns the predicate rejects, in their original order |
| DMatrices.DMatrix.CountKept | src/DMatrix.cpp:197-205 | the counting loop finds the numbers of kept rows and kept columns |
| DMatrices.DMatrix.KeepRows | src/DMatrix.cpp:209-218 | the copying loop produces the kept sub-matrix in row-major order |
| DMatrices.DMatrix.KeepRow | src/DMatrix.cpp:209-218 | one pass of the row loop keeps the loop invariant: the buffer so far holds, in row-major order, the kept columns of the rows kept so far |
| DMatrices.DMatrix.KeepColumns | src/DMatrix.cpp:215-218 | the inner copying loop appends the kept columns of one row |
| DMatrices.DMatrix.ReduceRow | src/DMatrix.cpp:292-303 | row r gets the multiplier times the pivot row added, and its entry in the pivot column becomes zero |
| DMatrices.DMatrix.EliminateBelowPivot | src/DMatrix.cpp:292-303 | every row below the pivot is eliminated, on both the matrix and the right-hand side |
| DMatrices.DMatrix.FindPivot | src/DMatrix.cpp:251-262 | the pivot is the first row at or below i with the largest absolute value in column i (corrected, see ## Findings) |
| DMatrices.DMatrix.ForwardStep | src/DMatrix.cpp:251-303 | one pass of the forward loop: pivot search, zero test, row exchange, elimination |
| DMatrices.DMatrix.ForwardPhase | src/DMatrix.cpp:243-304 | the forward loop over steps 0 to n-2 computes the forward elimination, or stops at the first zero pivot |
| DMatrices.DMatrix.SubtractKnown | src/DMatrix.cpp:314-315 | subtracts the dot product of row i right of the diagonal with the known later unknowns |
| DMatrices.DMatrix.BackSubstitute | src/DMatrix.cpp:309-318 | the back-substitution loop computes the back-substituted solution |
| DMatrices.DMatrix.BackPhase | src/DMatrix.cpp:306-320 | after the forward loop, a zero last pivot is an error, otherwise the back-substituted solution (corrected, see ## Findings) |
| DMatrices.DMatrix.GaussianElimination | src/DMatrix.cpp:231-321 | the result, or the step with a zero pivot, is that of the corrected solver, which solves the system uniquely (corrected, see ## Findings) |
| DMatrices.DMatrix.Equals | src/DMatrix.cpp:326-331 | equal exactly when the shapes and every entry agree |
| DMatrices.DMatrix.NotEquals | src/DMatrix.cpp:336-339 | the negation of equality |
| DMatrices.DMatrix.Multiply | src/DMatrix.cpp:362-376 | the product is the matrix times the vector, row by row |
| Elimination.Abs | src/DMatrix.cpp:252-256 | the absolute value is non-negative, plus or minus x, and zero exactly when x is (corrected, see ## Findings) |
| Elimination.Swap | src/DMatrix.cpp:280-287 | entries i and j exchanged and the rest unchanged |
| Elimination.SwapInvolution | src/DMatrix.cpp:280-287 | exchanging twice restores the sequence |
| Elimination.PivotScan | src/DMatrix.cpp:251-262 | the scan from any row on returns a row at or below i |
| Elimination.PivotScanFirstMax | src/DMatrix.cpp:251-262 | a scan started from a first maximum of the rows seen so far ends at a first maximum of the whole column |
| Elimination.Pivot | src/DMatrix.cpp:251-262 | the pivot row is at or below row i |
| Elimination.PivotIsFirstMax | src/DMatrix.cpp:251-262 | the pivot has the largest absolute value in column i, and no earlier row has as large a value |
| Elimination.MultiplierCancels | src/DMatrix.cpp:295 | the multiplier cancels the entry below the pivot: A[r][i] + m A[i][i] = 0 |
| Elimination.ElimRow | src/DMatrix.cpp:292-303 | the eliminated row is zero in the pivot column and keeps every earlier column |
| Elimination.EliminateBelow | src/DMatrix.cpp:292-303 | the eliminated matrix is again n x n |
| Elimination.EliminateBelowShape | src/DMatrix.cpp:292-303 | rows up to the pivot row are unchanged; every row below it is zero in the pivot column and keeps its earlier columns |
| Elimination.EliminateRhs | src/DMatrix.cpp:292-303 | the right-hand side keeps its entries up to the pivot row |
| Elimination.Step | src/DMatrix.cpp:251-303 | one step fails exactly at its own index, and otherwise keeps the system square |
| Elimination.StepFailsOnZeroColumn | src/DMatrix.cpp:251-277 | a step fails exactly when its column is zero from the diagonal down |
| Elimination.Forward | src/DMatrix.cpp:243-304 | the forward loop as written: a failure names a step below n-1, so the last pivot is never tested |
| Elimination.ReducedStep | src/DMatrix.cpp:292-303 | each step zeroes one more column below the diagonal and keeps a nonzero pivot |
| Elimination.ForwardShape | src/DMatrix.cpp:243-304 | a successful forward pass leaves the matrix upper triangular in its first n-1 columns |
| Elimination.SwapSound | src/DMatrix.cpp:280-287 | exchanging two equations does not change the solutions |
| Elimination.EliminationSound | src/DMatrix.cpp:292-303 | adding multiples of the pivot equation below it does not change the solutions |
| Elimination.StepSound | src/DMatrix.cpp:251-303 | one forward step keeps exactly the same solutions |
| Elimination.ForwardSound | src/DMatrix.cpp:243-304 | the whole forward pass keeps exactly the same solutions |
| Elimination.BackFrom | src/DMatrix.cpp:309-318 | back substitution yields one entry per unknown |
| Elimination.BackFromEntry | src/DMatrix.cpp:310-318 | each back-substituted entry is the right-hand side minus the later terms, divided by the diagonal |
| Elimination.BackSubstSolves | src/DMatrix.cpp:309-318 | back substitution solves an upper triangular system with a nonzero diagonal |
| Elimination.BackSubstUnique | src/DMatrix.cpp:309-318 | such a system has no other solution |
| Elimination.Solve | src/DMatrix.cpp:231-321 | the corrected solver fails with a step below n, and otherwise returns a vector of length n |
| Elimination.SolveCorrect | src/DMatrix.cpp:231-321 | a returned vector solves the original system |
| Elimination.SolveUnique | src/DMatrix.cpp:231-321 | a returned vector is the only solution of the original system |
| Elimination.StepHomogeneous | src/DMatrix.cpp:251-303 | a step fails independently of the right-hand side, its matrix does not depend on it, and a zero right-hand side stays zero |
| Elimination.StepNull | src/DMatrix.cpp:251-303 | a vector that the matrix after a step maps to zero is mapped to zero by the matrix before it |
| Elimination.ForwardNull | src/DMatrix.cpp:243-304 | a vector that the matrix after the forward pass maps to zero is mapped to zero by the original matrix |
| Elimination.NullVector | src/DMatrix.cpp:264-277 | a matrix reduced up to column k whose column k is zero from the diagonal down maps some vector with entry k equal to 1 to zero |
| Elimination.ForwardFailureNull | src/DMatrix.cpp:243-277 | a forward pass that stops at a zero pivot started from a matrix that maps a nonzero vector to zero |
| Elimination.SolveFailureNull | src/DMatrix.cpp:231-321 | a failed solve yields a nonzero vector that the matrix maps to zero, so the system is singular |
| Elimination.SolveFailureSingular | src/DMatrix.cpp:264-277 | a failure means the matrix is singular: some nonzero vector is mapped to zero |
| Elimination.AddNullVector | src/DMatrix.cpp:231-321 | adding a nonzero null vector to a solution gives a different solution, so a singular system never has a unique one |
| Elimination.UncheckedLastPivot | src/DMatrix.cpp:243-318 | on a free-floating spring the forward pass as written succeeds with a zero last pivot; the corrected solver reports step 1 |
| Elimination.PivotingExample | src/DMatrix.cpp:279-287 | a system with a zero first pivot is solved through the row exchange |
| Elimination.TruncatedAbs | src/DMatrix.cpp:252-256 | the integer abs of the truncated double: at most the real magnitude and within 1 of it, and zero exactly for magnitudes below 1 |
| Elimination.PivotScanTruncated | src/DMatrix.cpp:252-261 | the pivot scan with the integer abs returns a row at or below i and a largest value no smaller than its start |
| Elimination.ScanTruncatedZero | src/DMatrix.cpp:252-264 | the scan ends with largest 0 exactly when it started at 0 and every remaining entry is below 1 in magnitude |
| Elimination.StepRejectsAsWrittenIff | src/DMatrix.cpp:252-264 | with the integer abs, a step rejects the system exactly when its column is below 1 in magnitude from the diagonal down |
| Elimination.TruncatedAbsRejectsSolvable | src/DMatrix.cpp:252-264 | [[0.5, -0.25], [-0.25, 0.25]] u = [1, 0] is rejected by the integer abs although it has the solution [4, 4] |
| Nodes.Node.constructor | src/Node.cpp:25-26 | a new node has its index and id, no prescribed displacement and zero force |
| Nodes.Node.AddDisplacement | src/Node.cpp:73-76 | prescribes the displacement, replacing any earlier one; the force stays |
| Nodes.Node.AddForce | src/Node.cpp:81-84 | sets the force, replacing rather than adding to the old one; the displacement stays |
| Springs.LocalStiffness | src/Spring.cpp:73-84 | the local stiffness matrix is 2 x 2 |
| Springs.Spring.StiffnessMatrix | src/Spring.cpp:73-84 | a new 2 x 2 matrix [[k, -k], [-k, k]] |
| Springs.FlatStiffness | src/Spring.cpp:73-84 | the flat buffer k, -k, -k, k is the local stiffness matrix in row-major order |
| Springs.LocalForces | src/FEM.cpp:470-489 | the end forces are k(u1 - u2) and k(u2 - u1): equal, opposite, and zero for a rigid translation |
| Springs.LocalStiffnessBalanced | src/Spring.cpp:73-84 | the local matrix is symmetric and each row sums to zero |
| FemModel.Scatter | src/FEM.cpp:402-416 | the double loop over the local matrix keeps the global matrix n x n |
| FemModel.AddElementEntry | src/FEM.cpp:398-416 | one spring adds k or -k at exactly its four positions |
| FemModel.Assembled | src/FEM.cpp:368-421 | the global stiffness matrix is n x n |
| FemModel.AssembledEntry | src/FEM.cpp:368-421 | entry (r, c) of the global matrix is the sum over the springs of what each adds there |
| FemModel.AssembledSymmetric | src/FEM.cpp:368-421 | the global stiffness matrix is symmetric |
| FemModel.AssembledRowSums | src/FEM.cpp:368-421 | every row of the global stiffness matrix sums to zero |
| FemModel.RigidTranslation | src/FEM.cpp:368-421 | a rigid translation of all nodes produces no nodal forces |
| FemModel.Free | src/FEM.cpp:153-155 | the free indices are in range and have no prescribed displacement |
| FemModel.FreeStiffness | src/FEM.cpp:176 | the reduced matrix is square, one row and column per free node |
| FemModel.FreeLoads | src/FEM.cpp:161-180 | the reduced right-hand side has one entry per free node |
| FemModel.SolveModel | src/FEM.cpp:105-142 | a solution has one displacement per node |
| FemModel.DotOverSurvivors | src/FEM.cpp:168-170 | a dot product against a vector that is zero at the deleted positions only sees the kept ones |
| FemModel.SplitAtConstraints | src/FEM.cpp:157-181 | a row times u splits into the prescribed part, moved to the right-hand side, and the free part |
| FemModel.FreeRowResidual | src/FEM.cpp:147-181 | a free row of the full system and its row in the reduced system have the same residual |
| FemModel.MergeEquilibrium | src/FEM.cpp:128-135 | merging any solution of the reduced system into the prescribed displacements gives a displacement field in equilibrium |
| FemModel.SolveModelSound | src/FEM.cpp:105-142 | a solution keeps every prescribed displacement and balances the applied force at every free node |
| FemModel.EquilibriumSolvesFree | src/FEM.cpp:147-181 | a displacement field in equilibrium restricts to a solution of the reduced system |
| FemModel.SolveModelUnique | src/FEM.cpp:105-142 | a solution is the only displacement field in equilibrium |
| FemModel.SolveModelFailureSingular | src/FEM.cpp:128-132 | a failed solve means the reduced stiffness matrix is singular: some nonzero free displacement produces no force |
| FemModel.SolveModelFailureNotUnique | src/FEM.cpp:105-142 | after a failed solve, beside every displacement field in equilibrium there is a different one, so none is unique |
| FemModel.FreeFloatingRejected | src/FEM.cpp:105-142 | without any prescribed displacement no solve succeeds |
| FemModel.Shifted | src/FEM.cpp:368-421 | shifting an unconstrained equilibrium by a rigid translation keeps it in equilibrium |
| Fem.Subscript | src/FEM.cpp:74-100 | the map subscript returns the mapped index, inserting the key with index 0 when it is missing |
| Fem.SubscriptUnknownBreaksIndex | src/FEM.cpp:74-100 | subscripting with an unknown id reads node 0, whose id differs, and leaves the maps disagreeing with the node list |
| Fem.IndexedAppend | src/FEM.cpp:186-205 | registering a new id at the next index keeps the id map and the list in agreement |
| Fem.NodeIdsOf | src/FEM.cpp:186-205 | the ids of the nodes, in index order |
| Fem.SpringIdsOf | src/FEM.cpp:279-316 | the ids of the springs, in index order |
| Fem.FEM.constructor | src/FEM.cpp:31 | a model without nodes, springs or results, with consistent maps |
| Fem.FEM.ElementsConnect | src/FEM.cpp:279-316 | every spring of a consistent model joins two nodes of the model |
| Fem.FEM.AddNode | src/FEM.cpp:186-205 | a taken id is an error and changes nothing; otherwise a new node with the next index, no displacement and no force |
| Fem.FEM.AddDisplacement | src/FEM.cpp:210-217 | an unknown id is an error; otherwise exactly that node's displacement is prescribed |
| Fem.FEM.AddForce | src/FEM.cpp:222-229 | an unknown id is an error; otherwise exactly that node's force is set |
| Fem.FEM.AddSpring | src/FEM.cpp:279-316 | a taken spring id, then an unknown first node, then an unknown second node are errors; otherwise a new spring between the two nodes |
| Fem.FEM.GetNodeByIndex | src/FEM.cpp:242-251 | the node at that index; an index out of range is an error |
| Fem.FEM.GetNodeByID | src/FEM.cpp:256-266 | the node with that id; an unknown id is an error |
| Fem.FEM.GetNumberOfNodes | src/FEM.cpp:271-274 | the number of nodes |
| Fem.FEM.GetSpringByIndex | src/FEM.cpp:329-332 | the spring at that index |
| Fem.FEM.GetSpringByID | src/FEM.cpp:337-344 | the spring with that id, or nothing for an unknown id |
| Fem.FEM.GetNumberOfSprings | src/FEM.cpp:349-352 | the number of springs |
| Fem.FEM.DegreesOfFreedom | src/FEM.cpp:357-363 | one degree of freedom per node |
| Fem.FEM.AssembleGlobalStiffnessMatrix | src/FEM.cpp:368-421 | a new matrix equal to the assembled global stiffness matrix |
| Fem.FEM.AssembleGlobalDisplacementVector | src/FEM.cpp:426-443 | a new vector of the prescribed displacement of every node |
| Fem.FEM.AssembleGlobalForceVector | src/FEM.cpp:448-465 | a new vector of the applied force of every node |
| Fem.FEM.AssembleSystem | src/FEM.cpp:111-121 | the three assembled objects of the solve |
| Fem.FEM.ApplyBoundaryConditions | src/FEM.cpp:147-181 | the matrix becomes the reduced stiffness matrix and the force vector the reduced loads |
| Fem.FEM.Solve | src/FEM.cpp:105-142 | stores the global stiffness matrix; fails exactly when SolveModel fails, with its zero-pivot step, which means the reduced system is singular and no equilibrium is unique; otherwise stores the unique equilibrium displacements and the nodal forces K u (corrected, see ## Findings) |
| Fem.FEM.ComputeSolution | src/FEM.cpp:111-135 | a fresh copy of the full stiffness matrix; fails exactly when SolveModel fails, with the same step; otherwise fresh vectors holding the solve's displacements and K u |
| Fem.FEM.StoreSolution | src/FEM.cpp:117-141 | the stiffness matrix is always stored; after a success the displacement and force vectors are stored, after a failure they are unchanged |
| Fem.FEM.GetGlobalStiffnessMatrix | src/FEM.cpp:83-86 | the stored global stiffness matrix |
| Fem.FEM.GetGlobalDisplacementVector | src/FEM.cpp:88-91 | the stored displacement of every node |
| Fem.FEM.GetGlobalForceVector | src/FEM.cpp:69-72 | the stored nodal force of every node |
| Fem.FEM.GetGlobalDisplacementAsWritten | src/FEM.cpp:93-100 | the lookup as written: an unknown id is inserted with index 0, and node 0's displacement is returned |
| Fem.FEM.GetGlobalForceAsWritten | src/FEM.cpp:74-81 | the lookup as written: an unknown id is inserted with index 0, and node 0's force is returned |
| Fem.FEM.GetGlobalDisplacement | src/FEM.cpp:93-100 | the displacement of the node with that id; an unknown id is an error (corrected, see ## Findings) |
| Fem.FEM.GetGlobalForce | src/FEM.cpp:74-81 | the nodal force of the node with that id; an unknown id is an error (corrected, see ## Findings) |
| Fem.FEM.GetLocalForces | src/FEM.cpp:470-489 | the local stiffness matrix times the displacements of the spring's two nodes |
| Fem.DisplacementsOf | src/FEM.cpp:438-439 | the prescribed displacement of every node, in index order |
| Fem.ForcesOf | src/FEM.cpp:460-461 | the applied force of every node, in index order |
| Fem.AssembleSprings | src/FEM.cpp:380-417 | the loop over the springs produces the assembled global stiffness matrix |
| Fem.AddLocalMatrix | src/FEM.cpp:402-416 | the double loop adds one spring's local matrix at its nodes' positions |
| Fem.AddLocalRow | src/FEM.cpp:403-416 | the inner loop adds one row of the local matrix |
| Fem.MoveKnownColumns | src/FEM.cpp:165-171 | at a free row, the prescribed columns times their displacements are subtracted from the force |
| Fem.SolveSystem | src/FEM.cpp:117-141 | keeps a copy of the full matrix; the displacements are those of the solve and the forces are K u |
| Fem.SolveAssembled | src/FEM.cpp:128-135 | reduce, eliminate and merge give the solve's displacements, or its failing step |

## Left out

- Floating point: every `double` is an exact real. Rounding, NaN and
  infinities are not modelled. With the corrected solver, no division by a
  zero pivot takes place.
- Reading the model-definition files: the `FEM(files)` constructor,
  src/Parser.cpp and src/main.cpp. Parser.cpp and main.cpp are not part of
  this model. The model is built through `AddNode`, `AddDisplacement`,
  `AddForce` and `AddSpring`.
- Printing: `printResults` and the other print functions of src/FEM.cpp,
  every `operator<<`, and `Spring::dump`. They only produce text.
- `euclideanDistance` of `DVector` and `DMatrix`. It needs a square root,
  which exact reals do not have.
- Destructors and memory management, including the heap buffers behind
  `DVector`, `FVector` and `DMatrix`. Those buffers are sequence fields.
- Process termination: every place where the original prints an error and
  exits is an error result (`FemError`, or the failing step of the
  elimination).
- The index-to-id maps of the nodes and of the springs. The position of a
  node or spring in its list carries the same information (`NodeIds`,
  `SpringIds`).
- `getNodes` and `getSprings`, which return references to the lists. The
  lists are the fields `nodes` and `springs` of the model.
- Copy constructors and assignment of the `FDouble`, `Node` and `Spring`
  objects. An `FDouble` and a `Spring` are values, and nodes are shared by
  reference, as in the original.
- Fem.FEM.Solve: requires at least one free node. With every node
  prescribed, the reduced system is empty and the original's forward loop
  bound `n - 1` wraps around as an unsigned size.
- DMatrices.DMatrix.GaussianElimination: requires a non-empty square
  system, for the same unsigned wrap-around of `n - 1` when n is 0.
- Fem.FEM.GetSpringByIndex: requires an index in range. The original
  reads the list without a range check.
- Fem.FEM.GetLocalForces: requires a known spring id. For an unknown id
  the original dereferences a null pointer.
- Fem.FEM.GetGlobalDisplacementAsWritten and
  Fem.FEM.GetGlobalForceAsWritten: require at least one node when the id
  is unknown. The original reads index 0 of an empty vector then.
- Elimination.TruncatedAbs: a magnitude of 2^31 or more overflows the
  conversion to int, which C++ leaves undefined; the model truncates
  without a bound.
- Integer widths: indices and counts are unbounded natural numbers. No
  overflow of `int` or `size_t` is modelled, apart from the two
  requirements above.

## Findings

| source | as written | input that shows it | evidently intended | confidence | as-written member | corrected member |
|---|---|---|---|---|---|---|
| src/DMatrix.cpp:243-318 | the zero-pivot test runs only for steps 0 to n-2, so the last diagonal entry is never tested before back substitution divides by it | a free-floating spring: A = [[500, -500], [-500, 500]], b = [10, -10]; step 0 succeeds and leaves A(1, 1) = 0 | a zero last pivot is reported as a singular system, like every other zero pivot | not executed | Elimination.UncheckedLastPivot | Elimination.SolveCorrect |
| src/DMatrix.cpp:252-264 | `abs` is called unqualified on a double inside namespace nsl with only <cmath> included; with the GNU C++ library that is the integer `abs` of the C library, so each magnitude is truncated to an integer and any entry below 1 in magnitude reads as 0 | three nodes with node 1 held at 0, a force of 1 on node 2, and springs 1-2 and 2-3 of stiffness 0.25: the reduced system [[0.5, -0.25], [-0.25, 0.25]] u = [1, 0] has the solution [4, 4], but step 0 finds largest == 0 and reports the matrix as not solvable | the pivot search compares real magnitudes, and a step fails only on a column that is zero from the diagonal down | not executed; depends on the C++ library resolving the unqualified call to int abs | Elimination.TruncatedAbsRejectsSolvable | Elimination.StepFailsOnZeroColumn |
| src/FEM.cpp:74-100 | getGlobalForce and getGlobalDisplacement look the id up with the map's subscript operator, which inserts an unknown id with index 0 and returns the entry of node 0 (Fem.SubscriptUnknownBreaksIndex) | a solved model with nodes 1 and 2: getGlobalDisplacement(7) returns the displacement of node 1, and a later addNode(7) exits as a duplicate | an unknown id is an error, as in getNodeByID, and the id map is left alone | not executed | Fem.FEM.GetGlobalDisplacementAsWritten | Fem.FEM.GetGlobalDisplacement |
