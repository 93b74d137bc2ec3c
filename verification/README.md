# A verified model of Greenplum's contrib data structures

This project models seven pieces of Greenplum's `contrib/` directory in Dafny and proves what
each is for. In every one a fast, compressed or pruned form has to agree with a simple one.

- **Edit distance** (`Texts`, `EditDistance`, `EditBand`, `Levenshtein`, `BoundedCosts`,
  `LevenshteinBounded`).
  One C source is compiled into a plain two-row computation and into a bounded one that keeps
  only a band of each row. Both are proved against the edit-distance matrix over characters, for
  any multibyte encoding, and the matrix against lists of edits: no list is cheaper, some list
  attains it. The bounded form is exact up to its bound and above the bound otherwise.
- **Sparse vectors** (`CompWord`, `Runs`, `SparseVectors`, `SparseOps`). Run-length encoded
  float8 arrays over a variable-width count code. The code is self-delimiting, compressing and
  uncompressing is the identity, merging two compressed vectors is the pointwise operation, and
  a comparison of the compressed bytes decides equality of the arrays.
- **Boxes** (`Cubes`, `CubeOrder`, `CubeDistance`, `CubeIndex`, `CubeSplit`). Operators on boxes
  of mixed dimension in terms of their points, and search in an index tree of any depth.
- **Fixed-width range keys** (`NumericKeys`): search and page split over any total preorder.
- **Variable-width range keys** (`ByteStrings`, `VarKeys`, `VarSearch`, `VarSplit`, `VarInsert`,
  `VarInsertHalf`): ranges whose ends are cut to prefixes, again in trees of any depth, and the
  exact conditions under which a page's key, by union or by split, loses nothing, and under which
  an insertion below it loses nothing.
- **Record formatter** (`Formatter`, `FormatterRoom`, `FormatterScan`): records written into a
  buffer of fixed size and read back from chunks of any size, exactly which tuples and which tables
  fit the buffer, and what asking for more data and refusing it mean.
- **CRC-32** (`Crc32`, `Crc32Check`): the table-driven checksum is the bit-by-bit one of section
  8.1.1.6.2 of ITU-T V.42, notices every burst of up to 32 bits, and is the only word that brings
  the register to its residue.

`Gist` holds what is common to the three index trees. A search returns exactly the matching
leaves if and only if no inner key turns down a subtree that holds a match. An insertion adds
its leaf and loses none; its walk up takes the adjusted key of each page to the page above and
stops at a key that does not change. Boxes and fixed-width ranges stay properly keyed under it.
Variable-width trees stay nested, each key standing for all that the keys right below it stand
for, and so every search stays exact over any run of insertions; trees that are properly keyed
but not nested may lose a string. `PageSplit` holds what the two splits by sorting have in common.

## Where the code does not do what one would expect

- Two box queries disagree on the query's further axes. Containment in a query ignores the axes
  the box lacks, but descending towards it does not. A box inside the query is found in every
  tree that holds it if and only if the query reaches zero along those axes
  (`CubeIndex.FoundInEveryTree`). A search for an equal box descends in vain where a key's further
  axes stay off zero (`CubeIndex.MaySameExactly`).
- The union of variable-width keys rebuilds the key from the old lower end when both ends must
  move, and then passes over the new lower end. The key of a page still loses nothing, in any
  search of any tree, if and only if every lower end passed over is no less than the least of
  the others cut two bytes past its common prefix with the greatest upper end
  (`VarSearch.FoundUnderEveryPageExactly`). `VarSearch.MovingBothEndsLosesAMatch` is a tree that
  loses a match. Leaf pages never do, nor pages whose first entry is lowest.
- A split cuts the keys of both halves at one length, so one of them may be cut late. On a leaf
  page that is harmless at any length (`VarSplit.LeafSplitLosesNothing`). On an inner page the
  greatest upper end, cut, can overtake a shorter upper end that was cut before: extend it by
  bytes that are not all 255, and so stop short of strings which that entry stands for. Every
  search of every tree with such a half finds all its matches if and only if no entry is
  overtaken, except entries that have the half's cut lower end as a prefix anyway
  (`VarSplit.FoundUnderEveryHalfExactly`). `VarSplit.InnerSplitLosesAMatch` is a tree that loses
  a match.
- An insertion stops at the first key it leaves unchanged, though a key further up may not stand
  for the new string. A key is left unchanged if and only if it was cut by a union and stands for
  the string (`VarInsertHalf.UnchangedExactly`). Below such a half, all matches are found after
  every insertion, and so is every inserted string, if and only if no entry is out of reach in the
  sense just described (`VarInsertHalf.HalfInsertionExactly`).
  `VarInsertHalf.InsertionLosesAMatch` is a tree in which every search is exact until an insertion
  whose string is then not found.
- The set-returning `svec_unnest` emits nothing for a vector of one element, because a scalar's
  stored dimension is -1. It emits one element for an empty run. It emits the array if and only
  if the vector is no scalar and has no empty run before the array's end, up to arrays that
  happen to repeat a value (`SparseOps.UnnestAll`, `SparseOps.EmittedSpoiled`).
- The order of boxes compares the upper ends of the common axes before the lower ends of the
  further ones, so boxes of different dimensions can compare in a circle. Boxes of dimensions
  m <= n <= p never do if and only if m = n, or m = 0 and n = p (`CubeOrder.NoCircleExactly`).
- A count's entry is the shortest that reads as the count, except for 128, which takes three bytes
  though one would do (`CompWord.ShortestExactly`).
- A count stored in the zeroed bytes of `append_to_rle_index` reads back as itself if and only
  if it is not negative (`CompWord.RoundTripExactlyNonNegative`). Over leftover bytes, as in
  `makeSparseDataFromDouble`, a negative one may happen to (`CompWord.NegativeMayReadBack`).
- The export buffer has no room for the length prefix of a string without a declared length, nor
  for characters of more than one byte, and a record has to be strictly shorter than the buffer.
  With characters of up to w bytes, every tuple of a table can be exported if and only if every
  string column was declared with a length and the widest record, of 8 bytes for each float8 and
  4 plus w times the length for each string, is shorter than 128 bytes (`FormatterRoom.TablesFit`).
- A null float8 is written as a NaN and comes back as a NaN, not as a null, since the value read is
  compared with NaN for inequality. An empty string comes back as a null. A tuple comes back as it
  was if and only if it has no null float8, no empty string and no undeclared string of more than
  4096 bytes (`Formatter.NormalisedExactly`).
- Costs may be negative. `levenshtein_less_equal` is right for all strings and bounds if and only
  if no cost is negative, or the capped substitution cost is zero, or it is negative and neither
  insertion nor deletion costs anything
  (`LevenshteinBounded.LevenshteinLessEqualInternal` with `BoundedCosts.SoundExactly`).
- The error message and the documentation of `levenshtein` speak of 255 bytes; the code counts
  characters, and does not apply the limit when either string is empty
  (`Levenshtein.LevenshteinInternal`).
- `g_cube_picksplit` keeps the left side's size as the right side's (cube.c line 618). The slip
  is in the model; it changes which side an entry goes to, never the properties proved.

## Parameters instead of the backend

The multibyte length table `pg_mblen` is a parameter of `Texts.Text`; `qsort` is any function
that returns a sorted permutation; float8 arithmetic is any function on 64-bit patterns; the
bytes of a NaN are a parameter of the formatter. Integers are unbounded unless a width is
written out. Coordinates of boxes are reals.

## Model

| member | source | states |
|---|---|---|
| `EditDistance.NoCheaperEdits` | contrib/fuzzystrmatch/levenshtein.c:35-65 | for non-negative costs no list of insertions, deletions and substitutions, in any order and at any positions, that turns s into t costs less than the corner of the matrix |
| `EditDistance.CheapestEdits` | contrib/fuzzystrmatch/levenshtein.c:35-65 | for any costs some list of edits that turns s into t costs exactly the corner of the matrix |
| `EditDistance.Triangle` | contrib/fuzzystrmatch/levenshtein.c:66-402 | the distance obeys the triangle inequality for non-negative costs |
| `EditDistance.Symmetry` | contrib/fuzzystrmatch/levenshtein.c:66-402 | swapping the strings together with the insertion and deletion costs leaves the distance unchanged |
| `EditDistance.ZeroExactlyOnEqual` | contrib/fuzzystrmatch/levenshtein.c:66-402 | for positive costs the distance is zero if and only if the strings are equal |
| `EditDistance.FirstRow` | contrib/fuzzystrmatch/levenshtein.c:218-223 | the first row of the matrix is i deletions |
| `EditDistance.FirstColumn` | contrib/fuzzystrmatch/levenshtein.c:246-262 | the first column of the matrix is j insertions |
| `EditBand.ResidualSteps` | contrib/fuzzystrmatch/levenshtein.c:347-366 | the minimum residual falls by no more than an insertion or a deletion costs and is constant along a diagonal, if an insertion and a deletion together cost something |
| `EditBand.ResidualNonNegative` | contrib/fuzzystrmatch/levenshtein.c:347-366 | for non-negative costs it is also non-negative |
| `EditBand.TheoreticalMinimum` | contrib/fuzzystrmatch/levenshtein.c:151-158 | paying for the difference in length is unavoidable |
| `EditBand.TheoreticalMaximum` | contrib/fuzzystrmatch/levenshtein.c:159-163 | substituting along the shorter string and making up the difference in length is always possible |
| `EditBand.CapChangesNothing` | contrib/fuzzystrmatch/levenshtein.c:159-160 | lowering the substitution cost to insertion plus deletion changes no cell of the matrix, for any costs |
| `EditBand.DiagonalMonotone` | contrib/fuzzystrmatch/levenshtein.c:234-244 | values never fall along a diagonal |
| `EditBand.DeadOnTheLeft` | contrib/fuzzystrmatch/levenshtein.c:369-389 | columns at the left that cannot lead to a distance within the bound stay so in the next row |
| `EditBand.DeadOnTheRight` | contrib/fuzzystrmatch/levenshtein.c:234-244 | the band grows by at most one column on the right with each row |
| `EditBand.DeadRow` | contrib/fuzzystrmatch/levenshtein.c:391-393 | a row without a live cell means the distance exceeds the bound |
| `EditBand.AliveUpToZeroPoint` | contrib/fuzzystrmatch/levenshtein.c:347-367 | from a live column to the zero point of its row every column is live |
| `EditBand.FirstRowDead` | contrib/fuzzystrmatch/levenshtein.c:164-184 | no cell of the first row at or past the initial stop column is live |
| `EditBand.SentinelIsFaithful` | contrib/fuzzystrmatch/levenshtein.c:237-244 | the sentinel max_d + 1 in a dead cell fails the bound test, though it may be below the true value |
| `EditBand.StepIsFaithful` | contrib/fuzzystrmatch/levenshtein.c:289-300 | from neighbours that pass the bound test exactly when live and are then exact, the cell computed passes the test exactly when live and is then exact |
| `Texts.SplitJoins` | contrib/fuzzystrmatch/levenshtein.c:112-116 | the characters of a text, one after the other, are the text |
| `Texts.OnlySplit` | contrib/fuzzystrmatch/levenshtein.c:112-116 | no other pieces of the sizes that pg_mblen gives make it up |
| `Texts.SameTexts` | contrib/fuzzystrmatch/levenshtein.c:112-116 | in one encoding two texts have the same characters if and only if they are the same bytes |
| `Levenshtein.RestOfCharSame` | contrib/fuzzystrmatch/fuzzystrmatch.c:172-181 | true if and only if the two stretches of bytes are equal |
| `Levenshtein.SameCharacter` | contrib/fuzzystrmatch/levenshtein.c:280-296 | comparing last bytes, lengths and the rest decides equality of two multibyte characters |
| `Levenshtein.CharLengths` | contrib/fuzzystrmatch/levenshtein.c:196-208 | the cache holds the length of every character |
| `Levenshtein.FillRowMultibyte` | contrib/fuzzystrmatch/levenshtein.c:271-305 | the multibyte inner loop fills the given columns of the row by plain character equality and changes no other |
| `Levenshtein.FillRowSingleByte` | contrib/fuzzystrmatch/levenshtein.c:306-326 | so does the single-byte inner loop, when both texts have as many characters as bytes |
| `Levenshtein.LevenshteinInternal` | contrib/fuzzystrmatch/levenshtein.c:71-402 | fails if and only if both strings are non-empty and one is longer than 255 characters; otherwise returns the distance, for any costs; the characters make up the texts, and for positive costs in one encoding the result is zero if and only if the bytes are equal |
| `LevenshteinBounded.TheoreticalBounds` | contrib/fuzzystrmatch/levenshtein.c:155-163 | the distance lies between min_theo_d and max_theo_d computed with the capped substitution cost |
| `LevenshteinBounded.PlanSearch` | contrib/fuzzystrmatch/levenshtein.c:138-185 | giving up at once means the distance exceeds the bound, dropping the bound means it is within it, and past the initial stop column nothing is live |
| `BoundedCosts.SoundBounds` | contrib/fuzzystrmatch/levenshtein.c:149-185 | for sound costs a bound given up is exceeded, and a bound kept means no cost is negative |
| `BoundedCosts.SoundExactly` | contrib/fuzzystrmatch/levenshtein.c:149-394 | the costs are sound if and only if there are no two strings and bound on which they mislead |
| `BoundedCosts.SomeMisled` | contrib/fuzzystrmatch/levenshtein.c:149-394 | for all other costs two strings of one or two characters and a bound that do |
| `BoundedCosts.GivenUpWrongly` | contrib/fuzzystrmatch/levenshtein.c:155-158 | a bound on which negative substitutions mislead is given up although the distance is within it |
| `LevenshteinBounded.TrailGoesOn` | contrib/fuzzystrmatch/levenshtein.c:240-394 | row by row, a sentinel plus a negative cost slips under a bound of 0 that the distance exceeds |
| `LevenshteinBounded.BandRow` | contrib/fuzzystrmatch/levenshtein.c:226-326 | widens the band by one column, writes the sentinel there and fills the row, leaving what is left of the band alone |
| `LevenshteinBounded.SlideStop` | contrib/fuzzystrmatch/levenshtein.c:355-367 | the stop column passes only columns that fail the bound test and stops at one that passes it |
| `LevenshteinBounded.SlideStart` | contrib/fuzzystrmatch/levenshtein.c:369-389 | the start column passes only columns that fail the test, leaves the sentinel in both rows, and the source offset stays at the character of the first column filled |
| `LevenshteinBounded.NextRowFaithful` | contrib/fuzzystrmatch/levenshtein.c:232-326 | every cell the next row reads is faithful, so every cell it fills is, and nothing outside the band is live |
| `LevenshteinBounded.SlideKeepsBand` | contrib/fuzzystrmatch/levenshtein.c:345-389 | sliding both ends keeps every live cell in the band with its exact value |
| `LevenshteinBounded.TurnKeepsBand` | contrib/fuzzystrmatch/levenshtein.c:232-394 | filling a row and sliding both ends keep the band invariant, or the ends cross and the distance exceeds the bound |
| `LevenshteinBounded.NextRow` | contrib/fuzzystrmatch/levenshtein.c:226-396 | each turn of the row loop keeps the band invariant and the offset, or the ends cross |
| `LevenshteinBounded.CornerWithinBound` | contrib/fuzzystrmatch/levenshtein.c:398-402 | after the last row the band reaches the corner |
| `LevenshteinBounded.SearchBand` | contrib/fuzzystrmatch/levenshtein.c:188-402 | the row loop returns the distance when it is within the bound, and something above the bound otherwise |
| `LevenshteinBounded.LevenshteinLessEqualInternal` | contrib/fuzzystrmatch/levenshtein.c:68-402 | fails exactly when the unbounded form does; with no bound, or with sound costs, such as non-negative ones, it returns the distance whenever that is within the bound and something above the bound otherwise; with other costs it is wrong on every input that misleads; the characters make up the texts, and for positive costs in one encoding the result is zero if and only if the bytes are equal |
| `CompWord.Int8ToCompword` | contrib/gp_sparse_vector/SparseData.h:214-244 | writes the entry for a count to the front of the nine bytes and leaves the rest |
| `CompWord.EntryRoundTrip` | contrib/gp_sparse_vector/SparseData.h:49-50 | an entry says its own size, and reads back as its count wherever it stands in a buffer |
| `CompWord.ShortestExactly` | contrib/gp_sparse_vector/SparseData.h:201-244 | of all entries that read as a count the one written is the shortest, if and only if the count is not 128 |
| `CompWord.EntryLayout` | contrib/gp_sparse_vector/SparseData.h:214-244 | a count below 128 is its negative in one byte; any other is its width and its digits to base 256, lowest first |
| `CompWord.RoundTripExactlyNonNegative` | contrib/gp_sparse_vector/SparseData.h:171-292 | a 64-bit count stored in nine zeroed bytes reads back as itself if and only if it is not negative, and does so whatever the other bytes hold if and only if it is not negative |
| `CompWord.NegativeMayReadBack` | contrib/gp_sparse_vector/SparseData.c:84-88 | over leftover bytes that spell it, -2 reads back as -2 |
| `CompWord.WalkStep` | contrib/gp_sparse_vector/SparseData.h:250-292 | walking an index entry by entry reads the counts in order and ends exactly at the end of the buffer |
| `CompWord.PrefixFree` | contrib/gp_sparse_vector/SparseData.h:210-292 | of two indexes of equally many counts neither is a proper prefix of the other |
| `Runs.CanonicalUnique` | contrib/gp_sparse_vector/SparseData.c:140-183 | an array has only one list of maximal runs |
| `SparseVectors.SparseData.AppendToRleIndex` | contrib/gp_sparse_vector/SparseData.h:171-178 | appends exactly the entry of the count |
| `SparseVectors.SparseData.AddRun` | contrib/gp_sparse_vector/SparseData.h:180-190 | adds one run and keeps values, index and both counts in step |
| `SparseVectors.Float8ArrToSdata` | contrib/gp_sparse_vector/SparseData.c:155-183 | the compressed vector stands for the array, in maximal runs |
| `SparseVectors.SdataToFloat8Arr` | contrib/gp_sparse_vector/SparseData.c:219-257 | the array written is the one the vector stands for, and the size error never occurs |
| `SparseVectors.SdataIndexToInt64Arr` | contrib/gp_sparse_vector/SparseData.c:259-271 | returns the counts of all runs and ends at the end of the index |
| `SparseVectors.SparsedataEq` | contrib/gp_sparse_vector/SparseData.h:660-679 | true if and only if the runs are the same; on maximal runs, if and only if the arrays are bit-identical; no comparison passes the end of a buffer |
| `SparseVectors.DifferentRuns` | contrib/gp_sparse_vector/SparseData.h:669-676 | different runs of the same values differ within the shorter of the two indexes |
| `SparseOps.Stretch` | contrib/gp_sparse_vector/SparseData.h:744-792 | between two positions covered by one run of each vector the operation is constant |
| `SparseOps.Accumulate` | contrib/gp_sparse_vector/SparseData.h:793-810 | closes the pending run exactly when the value changes, so no two neighbouring runs have the same value |
| `SparseOps.Advance` | contrib/gp_sparse_vector/SparseData.h:812-834 | moves past whichever run ends first, or both, and never past the last run |
| `SparseOps.OpSdataBySdata` | contrib/gp_sparse_vector/SparseData.h:739-853 | fails exactly on different dimensions or an unknown operation; otherwise the result stands for the pointwise operation, in maximal runs when no argument has empty runs, and with fewer runs than both arguments together unless it has none |
| `SparseOps.Unnest.constructor` | contrib/gp_sparse_vector/sparse_vector.c:363-390 | the first call stands at the first element |
| `SparseOps.Unnest.Next` | contrib/gp_sparse_vector/sparse_vector.c:392-420 | each call emits the element at its position and moves one on, or says there is no more |
| `SparseOps.UnnestAll` | contrib/gp_sparse_vector/sparse_vector.c:353-422 | all the calls together emit the array, except that a scalar gives nothing and an empty run gives one element |
| `SparseOps.EmittedWhole` | contrib/gp_sparse_vector/sparse_vector.c:397-411 | what is emitted is the array when no empty run comes before its end |
| `SparseOps.EmittedSpoiled` | contrib/gp_sparse_vector/sparse_vector.c:397-411 | otherwise some vector with runs of the same lengths is emitted wrongly |
| `SparseOps.EmittedTotal` | contrib/gp_sparse_vector/sparse_vector.c:397-411 | the runs as emitted hold one element more for each empty run |
| `Cubes.InExactly` | contrib/cube/cube.c:1097-1132 | a point is in a box if and only if it lies between the two corners, in whichever order, along every axis of the box, and at zero along any other |
| `Cubes.CubeUnion` | contrib/cube/cube.c:731-783 | the union takes the lower minimum and the higher maximum along every zero-padded axis |
| `Cubes.UnionIsLeast` | contrib/cube/cube.c:731-783 | the union covers both boxes and is the least box that does |
| `Cubes.CubeContains` | contrib/cube/cube.c:1097-1132 | true if and only if b lies within a along every axis of b |
| `Cubes.ContainsPoints` | contrib/cube/cube.c:1097-1132 | that is, if and only if every point of b is a point of a |
| `Cubes.CubeOverlap` | contrib/cube/cube.c:1167-1208 | true if and only if the padded boxes meet along every axis |
| `Cubes.OverlapsPoints` | contrib/cube/cube.c:1167-1208 | that is, if and only if they have a point in common |
| `Cubes.IntersectionPoints` | contrib/cube/cube.c:801-868 | the intersection of boxes that overlap holds exactly the points of both |
| `CubeOrder.CubeCmp` | contrib/cube/cube.c:910-987 | compares lexicographically the lower and upper ends of the common axes, then of the further axes, then the dimensions |
| `CubeOrder.EqualExactlyOnSame` | contrib/cube/cube.c:910-987 | two boxes compare equal if and only if they have the same dimension and the same extent |
| `CubeOrder.FirstDifferenceDecides` | contrib/cube/cube.c:910-987 | the first coordinate that differs, in the order of comparison, decides, and the box with the smaller one comes first |
| `CubeOrder.DimensionDecides` | contrib/cube/cube.c:945-987 | of boxes with the same ends the one with fewer dimensions comes first |
| `CubeOrder.Antisymmetric` | contrib/cube/cube.c:910-987 | swapping the boxes negates the result |
| `CubeOrder.TransitiveInOneDimension` | contrib/cube/cube.c:910-987 | among boxes of one dimension the order is transitive |
| `CubeOrder.TransitiveByKey` | contrib/cube/cube.c:910-987 | the order is also transitive among boxes of two dimensions when one order of their coordinates serves all of them |
| `CubeOrder.SomeCircle` | contrib/cube/cube.c:915-983 | in every other mixture of three dimensions there are three boxes each less than the next in a circle |
| `CubeOrder.NoCircleExactly` | contrib/cube/cube.c:910-987 | boxes of dimensions m <= n <= p never compare in a circle if and only if m = n, or m = 0 and n = p |
| `CubeDistance.CubeDistanceSquared` | contrib/cube/cube.c:1232-1278 | before the square root the distance is the sum of the squared gaps along all padded axes |
| `CubeDistance.Distance1DIsGap` | contrib/cube/cube.c:1281-1293 | the one-dimensional distance is the gap between the two intervals, in whichever order their ends are given |
| `CubeDistance.NoCloserPoints` | contrib/cube/cube.c:1225-1278 | no pair of points of the two boxes is closer |
| `CubeDistance.ClosestPoints` | contrib/cube/cube.c:1225-1278 | some pair of points is exactly that close |
| `CubeDistance.RootIsLeast` | contrib/cube/cube.c:1225-1278 | any square root of it is at most the distance of any pair of points |
| `CubeDistance.Parallelogram` | contrib/cube/cube.c:1226-1229 | the distance of points obeys the parallelogram law |
| `CubeDistance.ScaledDistance` | contrib/cube/cube.c:1226-1229 | points scaled by k are k times as far apart |
| `CubeDistance.UnitDistance` | contrib/cube/cube.c:1226-1229 | points one apart along an axis are at distance one |
| `CubeDistance.Symmetric` | contrib/cube/cube.c:1232-1278 | the distance does not depend on the order of the boxes |
| `CubeDistance.ZeroExactlyOnOverlap` | contrib/cube/cube.c:1167-1278 | the distance is zero if and only if the boxes overlap |
| `Gist.SearchBy` | src/backend/access/gist/gistget.c:274-384 | the search returns no more than the matching leaves, and exactly those if and only if no inner key turns down a subtree that holds a match; then each matching leaf is there once and in order |
| `Gist.SearchPageBy` | src/backend/access/gist/gistget.c:274-384 | so does the search from a page, such as the root, which has no key |
| `Gist.FoundExactly` | src/backend/access/gist/gistget.c:274-384 | descending by any inner test returns exactly the leaves that pass the leaf test if and only if nothing is lost, in trees of any depth |
| `Gist.MatchingIsPicked` | src/backend/access/gist/gistget.c:342-363 | the matching leaves are listed in order, each passing one once and nothing else |
| `Gist.MatchingCounts` | src/backend/access/gist/gistget.c:342-363 | a passing leaf is listed as often as the tree holds it, any other never |
| `Gist.KeysAfter` | src/backend/access/gist/gist.c:457-462 | after an insertion below it a page has the keys it had, in order, if no key is taken up from it; otherwise the key taken up comes last and the one it replaces is gone |
| `Gist.InsertAddsOne` | src/backend/access/gist/gist.c:861-916 | an insertion, wherever its walk up stops, adds the one leaf and loses none |
| `CubeIndex.GCubeUnion` | contrib/cube/cube.c:391-418 | of two or more entries the result is their union; of one entry there is none |
| `CubeIndex.UnionAllIsLeast` | contrib/cube/cube.c:387-418 | the union of a page covers every entry and is the least box that does |
| `CubeIndex.LeafConsistent` | contrib/cube/cube.c:656-685 | true if and only if the box satisfies the operator of the strategy |
| `CubeIndex.LeafMatchPoints` | contrib/cube/cube.c:656-685 | each strategy number in terms of points: overlap is a common point, containment a subset, sameness the same points in as many dimensions |
| `CubeIndex.InternalConsistent` | contrib/cube/cube.c:687-715 | true if and only if the key overlaps or contains the query, as the strategy asks |
| `CubeIndex.NeverTurnedDown` | contrib/cube/cube.c:656-715 | a key that covers a matching box is never turned down, provided for containment in the query that the query reaches zero along the axes the box lacks |
| `CubeIndex.MayMatchExactly` | contrib/cube/cube.c:687-715 | for every strategy but sameness a key is let through if and only if some box it covers is a match that can be found |
| `CubeIndex.MaySameExactly` | contrib/cube/cube.c:702-706 | for sameness if and only if it may cover the query, given that its further axes reach zero |
| `CubeIndex.TurnedDown` | contrib/cube/cube.c:687-715 | the key made of a box inside the query is let through if and only if the query reaches zero along those axes |
| `CubeIndex.UnionKeysThePage` | src/backend/access/gist/gistutil.c:158-218 | the union of a page's keys, a lone key being entered twice, covers every key of the page |
| `CubeIndex.Search` | contrib/cube/cube.c:656-715 | the search by both consistency functions returns exactly the matching leaves of a properly keyed tree, if every match is findable; then each matching leaf is there once and in order |
| `CubeIndex.SearchPage` | contrib/cube/cube.c:656-715 | so does a scan from the root page |
| `CubeIndex.SearchIsExact` | contrib/cube/cube.c:391-715 | descending a tree of any depth with covering keys gives exactly the matching leaves, in order, for every strategy and mixed dimensions, if every match is findable |
| `CubeIndex.PageSearchIsExact` | contrib/cube/cube.c:391-715 | the same from a page of entries |
| `CubeIndex.FoundInEveryTree` | contrib/cube/cube.c:677-709 | a box inside the query is found in every tree that holds it if and only if the query reaches zero along the axes the box lacks |
| `CubeIndex.AdjustedCovers` | src/backend/access/gist/gistutil.c:319-372 | whether or not the union of two keys compares equal to the old key, the key that stays on the page covers both |
| `CubeIndex.UnchangedExactly` | src/backend/access/gist/gistutil.c:319-372 | the walk of an insertion stops if and only if the key covers the key taken up and has at least its dimension |
| `CubeIndex.InsertKeepsKeyed` | src/backend/access/gist/gist.c:861-916 | inserting a box below any page, each adjusted key being taken up until one does not change, keeps trees of any depth properly keyed |
| `CubeSplit.SizeAdds` | contrib/cube/cube.c:890-905 | a box cut in two along any axis has the sizes of its parts together |
| `CubeSplit.SizeOfUnit` | contrib/cube/cube.c:890-905 | a box one wide along every axis has size one |
| `CubeSplit.WasteOfCovered` | contrib/cube/cube.c:532-539 | a box with one it covers wastes the difference of their sizes |
| `CubeSplit.PickSeeds` | contrib/cube/cube.c:516-552 | the seeds are two different offsets that waste the most space among all pairs looked at |
| `CubeSplit.Enlarge` | contrib/cube/cube.c:600-621 | an entry goes left exactly when its union with the left box grows it less than the right one, by the sizes the source keeps |
| `CubeSplit.PlaceNext` | contrib/cube/cube.c:579-622 | placing the next entry keeps both lists ascending and dealt out, and each side's key the least box that covers its seed and what has been placed there; a seed goes to its side, any other entry to the side it enlarges less, and the sides change by that entry alone |
| `CubeSplit.PickSplit` | contrib/cube/cube.c:483-629 | every offset is in exactly one of two ascending, non-empty lists, each followed by the sentinel inside its array, and each side's key is the union of exactly that side's entries; the seeds waste the most, and every entry is where it enlarged the sides of that moment less |
| `CubeSplit.BoundsIsUnion` | contrib/cube/cube.c:600-628 | the least box that covers some entries, of no more dimensions than they have, is their union |
| `CubeSplit.SplitKeysThePage` | contrib/cube/cube.c:623-628 | either half of a split page is properly keyed by its side's key |
| `PageSplit.NumberExactly` | contrib/btree_gist/btree_utils_num.c:254-261 | the entries handed to the sort are those at the offsets from one on, each once |
| `NumericKeys.NumUnion` | contrib/btree_gist/btree_utils_num.c:97-126 | the union covers every range and each of its ends is an end of one of them; of two ranges it is the first, widened just enough |
| `NumericKeys.NumBinUnion` | contrib/btree_gist/btree_utils_num.c:157-182 | adding one range to a union, or starting one, gives a range that spans all of them |
| `NumericKeys.SpanningKeysThePage` | contrib/btree_gist/btree_utils_num.c:97-126 | a page with such a key is properly keyed |
| `NumericKeys.SatisfiesByNumber` | contrib/btree_gist/btree_utils_num.c:202-230 | the five strategy numbers in terms of the order alone |
| `NumericKeys.InnerExactly` | contrib/btree_gist/btree_utils_num.c:191-233 | an inner key is let through if and only if some value of its range satisfies the operator, a strict one being taken as not strict |
| `NumericKeys.SearchIsExact` | contrib/btree_gist/btree_utils_num.c:191-233 | over any total preorder a search in a properly keyed tree of any depth returns exactly the leaves whose value satisfies the operator, in order |
| `NumericKeys.Search` | contrib/btree_gist/btree_utils_num.c:191-233 | so does a scan from the root page |
| `NumericKeys.UnchangedExactly` | src/backend/access/gist/gistutil.c:319-372 | the walk of an insertion stops if and only if the key covers the range taken up |
| `NumericKeys.InsertKeepsKeyed` | src/backend/access/gist/gist.c:861-916 | inserting a value below any page, each adjusted key being taken up until one does not change in the order, keeps trees of any depth properly keyed |
| `NumericKeys.PickSplit` | contrib/btree_gist/btree_utils_num.c:237-282 | the page's entries are dealt out in two halves, no entry of the left half sorts after one of the right, and each side's key spans exactly its entries; lower ends in the left half are no greater than in the right |
| `VarKeys.NodeCpLen` | contrib/btree_gist/btree_utils_var.c:93-137 | the length of the common prefix of a key's ends |
| `VarKeys.PfMatch` | contrib/btree_gist/btree_utils_var.c:144-181 | true if and only if the first string is a prefix of the second |
| `VarKeys.VarUnion` | contrib/btree_gist/btree_utils_var.c:310-345 | the key of a page is the step-by-step union of its entries, cut two bytes past the common prefix of its ends |
| `VarKeys.BinUnionExactly` | contrib/btree_gist/btree_utils_var.c:234-277 | a step of the union accounts for all that its arguments account for if and only if it does not move both ends |
| `VarKeys.CutAccounts` | contrib/btree_gist/btree_utils_var.c:205-229 | cutting both ends two or more bytes past their common prefix loses nothing the key accounted for, however often it was cut before |
| `VarKeys.UnionEnds` | contrib/btree_gist/btree_utils_var.c:234-345 | the union goes from the least lower end that is kept to the greatest upper end, an entry being kept if it is the first or some earlier upper end reaches as far |
| `VarKeys.CutKeyExactly` | contrib/btree_gist/btree_utils_var.c:205-345 | a union cut two or more bytes past its common prefix accounts for all that its entries do if and only if no lower end of theirs is below its own |
| `VarKeys.PageKeyExactly` | contrib/btree_gist/btree_utils_var.c:310-345 | the key of a page accounts for all that its entries do if and only if no lower end is lost, a condition on the entries alone |
| `VarKeys.OneEndIsEnough` | contrib/btree_gist/btree_utils_var.c:234-277 | no lower end is lost if no step of the union moves both ends |
| `VarKeys.LeafPageMovesOneEnd` | contrib/btree_gist/btree_utils_var.c:234-277 | on a leaf page no step of the union moves both ends |
| `VarKeys.LeastFirstIsEnough` | contrib/btree_gist/btree_utils_var.c:234-277 | nor on any page whose first entry has the least lower end |
| `VarSearch.NeverTurnedDownExactly` | contrib/btree_gist/btree_utils_var.c:189-604 | a key is let through for every query that a string satisfies, by any of the five strategies, if and only if the string is not below it, and not above it unless an end of the key is a prefix of it |
| `VarSearch.NeverTurnedDown` | contrib/btree_gist/btree_utils_var.c:548-604 | a key that stands for a string satisfying the operator is never turned down |
| `VarSearch.SatisfiesByNumber` | contrib/btree_gist/btree_utils_var.c:556-601 | the five strategy numbers in terms of the byte order |
| `VarSearch.InnerExactly` | contrib/btree_gist/btree_utils_var.c:548-604 | an inner key is let through if and only if some string it reaches satisfies the operator, a strict one being taken as not strict |
| `VarSearch.PageTurnsNothingDownExactly` | contrib/btree_gist/btree_utils_var.c:310-604 | the key of a page is let through for every match below its entries if and only if no lower end is lost |
| `VarSearch.LeafPageLosesNothing` | contrib/btree_gist/btree_utils_var.c:310-604 | whatever strings are on a leaf page, its cut key is let through whenever one of them satisfies the operator |
| `VarSearch.UnionKeysThePage` | contrib/btree_gist/btree_utils_var.c:310-345 | a page of properly keyed entries, at any depth, is properly keyed by its union if no lower end is lost |
| `VarSearch.SearchIsExact` | contrib/btree_gist/btree_utils_var.c:548-604 | a search in a properly keyed tree of any depth, its keys cut at whatever length, returns exactly the strings that satisfy the operator, in order |
| `VarSearch.Search` | contrib/btree_gist/btree_utils_var.c:548-604 | so does a scan from the root page |
| `VarSearch.FoundUnderExactly` | contrib/btree_gist/btree_utils_var.c:548-604 | under any key, every search of every tree whose top page has the given entries finds exactly its matches if and only if the key turns down nothing that they stand for |
| `VarSearch.FoundUnderEveryPageExactly` | contrib/btree_gist/btree_utils_var.c:310-604 | every search of every tree whose top page has the given keys, and their union as its own, finds exactly its matches if and only if no lower end is lost |
| `VarSearch.MovingBothEndsLosesAMatch` | contrib/btree_gist/btree_utils_var.c:254-266 | two properly keyed pages whose union moves both ends, and a search that loses a string they hold |
| `VarSplit.BinUnionInto` | contrib/btree_gist/btree_utils_var.c:234-277 | starting or extending a union gives the union of all the keys so far |
| `VarSplit.CutPastBoth` | contrib/btree_gist/btree_utils_var.c:523-533 | both halves are cut at least two bytes past their common prefixes, and one of them just there |
| `VarSplit.KeyLeOrders` | contrib/btree_gist/btree_utils_var.c:441-454 | a page is sorted by lower ends, and by upper ends where those are equal |
| `VarSplit.PickSplit` | contrib/btree_gist/btree_utils_var.c:441-541 | the page's entries are dealt out in two sorted halves, no entry of the left half sorts after one of the right, and each side's key is the union of exactly its entries, cut two bytes past the longer common prefix; that is at least two bytes past the prefix of each half |
| `VarSplit.LeafSplitLosesNothing` | contrib/btree_gist/btree_utils_var.c:505-604 | the union of a leaf page, cut at any length, is let through for every match on the page |
| `VarSplit.LeafSplitKeysThePage` | contrib/btree_gist/btree_utils_var.c:505-538 | either half of a split leaf page is properly keyed |
| `VarSplit.CutKeyStandsExactly` | contrib/btree_gist/btree_utils_var.c:505-538 | the late-cut key of any entries stands for all that they stand for if and only if no lower end is below it and it overtakes no upper end, that is, extends none by bytes other than 255 |
| `VarSplit.HalfStandsExactly` | contrib/btree_gist/btree_utils_var.c:498-538 | of a sorted half, if and only if its greatest upper end, cut, overtakes no upper end |
| `VarSplit.SplitTurnsNothingDownExactly` | contrib/btree_gist/btree_utils_var.c:505-604 | the late-cut key of any entries is let through for every match below them if and only if no lower end is below it and it overtakes no upper end that does not have its lower end as a prefix |
| `VarSplit.HalfTurnsNothingDownExactly` | contrib/btree_gist/btree_utils_var.c:498-604 | of a sorted half, if and only if its greatest upper end, cut, overtakes no upper end that does not have its first lower end, cut, as a prefix |
| `VarSplit.FoundUnderEveryHalfExactly` | contrib/btree_gist/btree_utils_var.c:498-604 | on the same condition, and only then, every search of every tree whose top page is such a half finds exactly its matches |
| `VarSplit.SplitKeysThePage` | contrib/btree_gist/btree_utils_var.c:505-538 | a sorted half of an inner page is properly keyed if no upper end is overtaken |
| `VarSplit.InnerSplitLosesAMatch` | contrib/btree_gist/btree_utils_var.c:523-538 | four properly keyed leaf pages whose split loses a string: the search for it under the left half finds nothing, though only one end ever moved |
| `VarInsert.AdjustedStands` | src/backend/access/gist/gistutil.c:319-372 | the cut union of any key and one string stands for that string and for all that the key stood for |
| `VarInsert.TakenUpAlike` | src/backend/access/gist/gist.c:901-915 | adjusting a key to the adjusted key of the page below comes to the same as adjusting it to the new string, if it stands for both ends of that page's old key |
| `VarInsert.TakenUpStands` | src/backend/access/gist/gist.c:901-915 | and the result stands for all that either key stands for, though both ends may have moved |
| `VarInsert.NestedIsKeyed` | contrib/btree_gist/btree_utils_var.c:548-604 | a tree whose keys stand for all that the keys right below them stand for is properly keyed |
| `VarInsert.NestedByUnionExactly` | contrib/btree_gist/btree_utils_var.c:310-345 | a page keyed by the union of its entries is nested if and only if no lower end is lost |
| `VarInsert.NestedByHalfExactly` | contrib/btree_gist/btree_utils_var.c:498-538 | a sorted half of a split page is nested if and only if no upper end is overtaken |
| `VarInsert.InsertKeepsNested` | src/backend/access/gist/gist.c:861-916 | an insertion below any page of nested trees leaves all of them nested, wherever its walk up stops |
| `VarInsert.RunStaysExact` | src/backend/access/gist/gist.c:861-916 | after any run of insertions into nested trees, the tree holds exactly what it held and what was put in, and every search returns exactly its matches |
| `VarInsertHalf.UnchangedExactly` | src/backend/access/gist/gistutil.c:319-372 | a string leaves a key unchanged, so that the walk stops, if and only if the key was cut by a union and stands for the string |
| `VarInsertHalf.StillReached` | src/backend/access/gist/gist.c:901-915 | a string that a key lets through below an entry is let through by the key adjusted to any other string |
| `VarInsertHalf.InsertionExactly` | src/backend/access/gist/gist.c:861-916 | below a key that stands for the ends of its entries, every search is exact after every insertion into every nested tree with those entries, and every inserted string is found, if and only if the key turns nothing down that they stand for |
| `VarInsertHalf.InsertionStaysWholeExactly` | src/backend/access/gist/gist.c:861-916 | for entries cut by unions, that is also exactly when no insertion spoils a tree in which every search was exact |
| `VarInsertHalf.HalfInsertionExactly` | src/backend/access/gist/gist.c:861-916 | below a sorted half of a split page, all of these hold if and only if its greatest upper end, cut, overtakes no upper end that does not have its first lower end, cut, as a prefix |
| `VarInsertHalf.InsertionLosesAMatch` | src/backend/access/gist/gist.c:901-915 | the left half of a split, in which every search is exact, and an insertion that changes no key and whose string a search then does not find |
| `ByteStrings.LeTotal` | src/backend/utils/adt/varlena.c:2569-2588 | of two byte strings one is no greater than the other, both only if they are equal |
| `ByteStrings.LeTransitive` | src/backend/utils/adt/varlena.c:2569-2588 | the order of byte strings is transitive |
| `Formatter.OpenExporter` | contrib/formatter/gpformatter.c:62-110 | the first call succeeds if and only if every column can be formatted, and makes a buffer of the size computed |
| `Formatter.Exporter.Export` | contrib/formatter/gpformatter.c:120-202 | a tuple is exported if and only if its record is shorter than the buffer, and the buffer then starts with exactly that record |
| `Formatter.FloatTablesFit` | contrib/formatter/gpformatter.c:73-149 | a table of float8 columns can be exported if and only if it has fewer than sixteen |
| `FormatterRoom.TablesFit` | contrib/formatter/gpformatter.c:73-182 | with characters of up to w bytes, w from 1 to 4, every tuple within its declared lengths can be exported if and only if every string column was declared and the widest record is shorter than 128 bytes |
| `FormatterRoom.DeclaredTablesFit` | contrib/formatter/gpformatter.c:73-182 | with single-byte characters, if and only if every string column was declared and the room reckoned for the columns is less than 128 bytes |
| `FormatterRoom.TupleFits` | contrib/formatter/gpformatter.c:71-182 | a tuple can be exported if and only if its floats, strings and length prefixes take less than 128 bytes or less than 8 bytes for each float8, the declared length and four for each declared string and 4096 for each other string |
| `FormatterRoom.UndeclaredFit` | contrib/formatter/gpformatter.c:90-182 | strings without a declared length, in any number of columns, if and only if they average under 4092 bytes as written |
| `FormatterRoom.OneUndeclaredFits` | contrib/formatter/gpformatter.c:90-182 | a single one if and only if it is shorter than 4092 bytes |
| `Formatter.Written` | contrib/formatter/gpformatter.c:174-191 | of a string without any type modifier the first 4096 bytes are written, of any other all |
| `Formatter.Int32Digits` | contrib/formatter/gpformatter.c:168-182 | the length before a string is its four digits to base 256, lowest first |
| `Formatter.RecordRoundTrip` | contrib/formatter/gpformatter.c:135-375 | a record followed by anything reads back as its tuple, with null floats as NaN, empty strings as null and long undeclared strings cut, and exactly the record is used up |
| `Formatter.NormalisedExactly` | contrib/formatter/gpformatter.c:144-360 | a tuple comes back as it was if and only if it has no null float, no empty string and no undeclared string of more than 4096 bytes |
| `Formatter.ShortOnPrefix` | contrib/formatter/gpformatter.c:298-349 | every strict prefix of a record asks for more data |
| `Formatter.RecordExtends` | contrib/formatter/gpformatter.c:291-375 | once a record has been read or refused, data that follows makes no difference |
| `FormatterScan.ShortExactly` | contrib/formatter/gpformatter.c:291-375 | more data is asked for if and only if there is no record yet and some continuation has one |
| `FormatterScan.GoodExactly` | contrib/formatter/gpformatter.c:335-342 | a scan meets a bad length if and only if no data that may follow makes the file a whole number of records |
| `Formatter.ImportField` | contrib/formatter/gpformatter.c:298-370 | one field is read from the cursor if it is all there |
| `Formatter.OpenImporter` | contrib/formatter/gpformatter.c:222-264 | the first call succeeds if and only if every column can be formatted |
| `Formatter.Importer.Refill` | src/backend/access/external/fileam.c:1797-1826 | what has not been read moves to the front and new data follows it |
| `Formatter.Importer.Import` | contrib/formatter/gpformatter.c:268-388 | the cursor moves past exactly one whole record, and not at all when more data is needed or a length is bad |
| `Formatter.DrainExtends` | src/backend/access/external/fileam.c:1022-1158 | data that comes later is read as if it had been there from the start |
| `Formatter.ImportAll` | src/backend/access/external/fileam.c:1010-1158 | a scan returns the tuples of the joined data however it is chunked, and says whether it met an unsupported column, a bad length or an unfinished record |
| `Formatter.RecordsRoundTrip` | contrib/formatter/gpformatter.c:135-388 | the records of any tuples one after the other are read back as those tuples, normalised, and used up |
| `Crc32.TableDivides` | contrib/hstore/crc32.c:21-91 | every entry of the table is what its index leaves after eight shifts through the polynomial |
| `Crc32.NextCrcIsEightShifts` | contrib/hstore/crc32.c:19 | one look-up is the same as shifting in the eight bits of the byte, whatever the sign of the char |
| `Crc32.Crc32Sz` | contrib/hstore/crc32.c:93-106 | the checksum is the bit-by-bit one, on every buffer |
| `Crc32Check.ResidueExactly` | contrib/hstore/crc32.c:93-106 | after any message, four bytes bring the register to the residue 0xdebb20e3 if and only if they are the message's checksum, lowest byte first |
| `Crc32Check.CheckValues` | contrib/hstore/crc32.c:93-106 | the checksum of nothing is 0, and of the digits 1 to 9 0xcbf43926 |
| `Crc32.BurstIsNoticed` | contrib/hstore/crc32.c:19-106 | two messages that differ, and only within 32 consecutive bits, have different checksums |
| `Crc32.FourBytesAreNoticed` | contrib/hstore/crc32.c:19-106 | two equally long buffers that differ, and only within four consecutive bytes, have different checksums |
| `Crc32.LongerBurstMayPass` | contrib/hstore/crc32.c:12-106 | from any register there are two different words of 33 bits that leave the same register |
| `Crc32.LongerBurstIsMissed` | contrib/hstore/crc32.c:12-106 | between any bits before and after there are two different words of 33 bits that give two messages the same checksum |
| `Crc32.FiveBytesMayPass` | contrib/hstore/crc32.c:12-106 | two different buffers of five bytes that agree after 33 bits have the same checksum |

## Left out

- LevenshteinBounded.LevenshteinLessEqualInternal: does not model 32-bit overflow of costs times lengths.
- Levenshtein.LevenshteinInternal: does not model 32-bit overflow of costs times lengths.
- Gist.SearchBy: visits the entries of a page from left to right and one at a time; the source's stack visits pages in another order, and pages split by others during a scan are not modelled.
- CubeDistance.CubeDistanceSquared: the final square root is left out; `CubeDistance.RootIsLeast` holds of any such root.
- SparseOps.Unnest.Next: the run length that the source reads past the end of the index after the last element, and then does not use, is not read.
- SparseOps.OpSdataBySdata: the byte after an empty index is taken to be the zero that a freshly made vector has there.
- SparseVectors.Float8ArrToSdata: the empty array, whose first element the source reads, is left out.
- NumericKeys.PickSplit: the sort itself is a parameter, and the page handed to it is a list.
- VarSplit.PickSplit: the same; and a page of a single entry, whose empty left half the source would read, is left out.
- VarKeys.VarUnion: keys are values; the layout of a key in memory and aliasing are not modelled.
- Formatter.ImportAll: tables without columns, for which the scan would not end, and the handling of rejected rows are left out.
- Rounding and NaN in the coordinates of boxes, `rt_cube_size` of a missing box, and the penalty functions of all three operator classes.
- Gist.InsertAddsOne: takes every page to have room and every key to be one non-null column; the walk up the stack of locked pages is a recursion over the tree, and changes made by others meanwhile are not modelled.
- Which page an insertion chooses by its penalty, and the splits that it may pass up the tree.
- The multibyte branches of the variable-width keys, which depend on a collation.
- Sparse vectors of types other than float8, the text form of a vector, its serialised form, missing indexes and negative run lengths.
- The wrappers that fix all costs at one, `metaphone`, `soundex` and `dmetaphone`.
- A change of record type between two calls of a formatter.
- The rest of `contrib/` and of the server.
