# GenSync verification

A Dafny model of the parts of GenSync that two remote peers' sets depend on, with
proofs that each compact structure agrees with the plain set behind it. The model
follows the C++ sources branch by branch: objects that are updated in place are
classes, loops are loops with invariants, and protocols are state machines over
the sends and receives of both peers.

`dafny verify dfyconfig.toml` checks the whole project. The four areas, and the
files that hold them:

- **Packed table and cuckoo filter.** `Bits` gives the machine operators by what
  they do to each bit. `Compact2DBitArray` proves that entries of 1 to 32 bits,
  packed without gaps, behave as a plain two-dimensional array. `CuckooPairs` and
  `CuckooFilter` prove which eviction chains an insertion ends in, rollback of
  failed insertions and, for every run, that lookups answer exactly for the live items up to collisions, at every filter
  size. The alternative bucket is an involution for all hashes exactly when the
  number of buckets is a power of two; at other sizes the items whose alternative
  bucket does not lead back are refused, and no other item is ever lost.
- **Invertible Bloom lookup tables.** `SignedSketch` and `GenIBLT` treat a table
  as a linear sketch of signed keys. Subtraction gives the sketch of the
  difference; peeling stops at the unique largest part in which no cell holds a
  single key, and every listed key comes with its value. `IBLTSync` is the exchange between two peers, `MetIBLT` peels
  several tables together, and `MultisetSketch` and `IBLTMultiset` do the same
  for multiplicities with modular checksums. Hash functions are arbitrary.
  Faithfulness of checksums is a hypothesis on what single cells hold while the
  difference is peeled, and it is proved rather than assumed where all counts are
  positive.
- **Characteristic-polynomial interpolation.** `Modular`, `PrimeField` and
  `Polynomials` are the algebra, and `CPISync` keeps the evaluations.
  `Interpolation`, `RationalSystem` and `CPIReconciliation` show why enough
  samples determine the two differences. `LowCoefficients` and `CPIRank` compute
  the rank of the linear system: it falls short of the number of unknowns by
  exactly what the degree bounds exceed the differences. `LinearSystem` is back
  substitution, `SquareFree` the test before factoring, `NumberLibrary` what the
  number theory library promises; `Elimination` and `LibraryModel` show that such
  a library exists for every prime. `Fractions` says exactly when the root finder
  succeeds. With these `RatFuncInterp` and `SetReconcile` prove the server's whole
  test. `CPIDoubling` is the two-peer doubling protocol,
  and `CPIEndToEnd` puts the proved test into it. `InterCPISync` with
  `InterCPIRuns` is the recursive protocol: every interleaving of the peers ends
  in one state, with the two differences listed exactly.
- **Compressed sketch codec.** `CpcBitStream`, `CpcByteCodec`, `CpcPairCodec`,
  `PairSort` and `CpcFlavors` model the 64-bit bit buffer, the prefix and Golomb
  codes, the table sort, and the hybrid, pinned and sliding transformations, with
  round trips and exact buffer bounds. Coding tables are any prefix-free code with lengths 1 to 12.

Some statements say where the code does not do what its documentation promises:

- `CPIEndToEnd.SyncSucceedsIff`: a synchronization whose last bound covers the
  differences succeeds if and only if it is not the server alone that is empty.
  A server without elements tries no interpolation, takes both differences to be
  empty, and its redundancy check then compares one with the client's evaluations;
  `CPIEndToEnd.OneElementRefused` gives an input for which both peers fail.
- `CPISyncs.CPISync.DelElem`: deleting an element keeps the evaluations those of
  the stored hashes if and only if exactly one slot holds it. An element that was
  refused when it was added is still in the element list; deleting it reports
  success and divides a factor that was never multiplied in out of every
  evaluation (`CPISyncs.DeleteRefused`, with an input in `RefusedThenDeleted`). An
  element stored twice is erased twice and divided out once.
- `CPISyncs.NonzeroIffRoomy`: evaluations at all samples are nonzero exactly when
  the field is strictly larger than the data range plus the number of samples.
  The source asks for a prime at least that large, which may be equal to it; the
  last sample is then zero and meets the element 0.
- `IBLTMultisets.UnreachableBranch`: exactly which cells take the branch logged as
  unreachable. `UnreachableBranchReached` builds a table of such cells under
  colliding checksums; with faithful ones `IBLTMultiset.ListEntries` proves that
  the branch is not taken.

In one place it is the documentation that errs: a comment at
include/GenSync/Syncs/Cuckoo.h:290-292 says that at some filter sizes the
alternative bucket introduces false negatives, but the items concerned are refused
when they are inserted (`CuckooPairs.Hashing.LookupsExact`).

Integers are unbounded. Fixed widths are written out where they matter: bytes,
32-bit words, the 64-bit bit buffer (whose contents are bounded by the number of
buffered bits), 32-bit pairs, the signed remainder of the checksum arithmetic and
division that truncates towards zero.

## Model

| member | source | states |
|---|---|---|
| BitArray.Compact2DBitArray.constructor | src/Syncs/Compact2DBitArray.cpp:26-47 | a new table is a plain array of zeros of the given shape |
| BitArray.Compact2DBitArray.GetEntry | src/Syncs/Compact2DBitArray.cpp:98-126 | reads the plain array's entry, which fits the entry width; fails exactly on an index out of range |
| BitArray.Compact2DBitArray.SetEntry | src/Syncs/Compact2DBitArray.cpp:128-208 | updates the plain array at that entry and nowhere else; fails exactly on an index out of range, changing nothing |
| BitArray.Shape.StartFits | src/Syncs/Compact2DBitArray.cpp:73-85 | every entry lies inside the store |
| BitArray.Shape.PackedInOrder | src/Syncs/Compact2DBitArray.cpp:73-85 | entries follow each other without gaps, bucket after bucket, from the first bit to the last |
| BitArray.Shape.CellsDisjoint | src/Syncs/Compact2DBitArray.cpp:73-85 | different cells share no bit |
| BitArray.Shape.WrittenRows | src/Syncs/Compact2DBitArray.cpp:128-208 | writing one entry's bits changes that cell of the plain array only |
| BitArray.Read | src/Syncs/Compact2DBitArray.cpp:98-126 | an entry over one to five bytes reads as the number its bits spell |
| BitArray.Write | src/Syncs/Compact2DBitArray.cpp:142-207 | exactly the entry's bits become those of the new value, in all five byte spans |
| BitArray.WriteWithin | src/Syncs/Compact2DBitArray.cpp:146-163 | an entry inside one byte keeps the bits on both sides of it |
| BitArray.WritePrefix | src/Syncs/Compact2DBitArray.cpp:169-191 | all bytes of a straddling entry but the last, and how many bits were consumed |
| BitArray.LastByte | src/Syncs/Compact2DBitArray.cpp:193-202 | the last byte gets the remaining bits and keeps the next entry's |
| BitArray.FingerprintBytes | src/Syncs/Compact2DBitArray.cpp:132-140 | the bytes of a fingerprint, most significant first |
| BitArray.NextFByteBits | src/Syncs/Compact2DBitArray.cpp:214-237 | the next byte holds the next eight unconsumed bits while eight remain, or when the fingerprint fits one byte |
| BitArray.NextFByteExact | src/Syncs/Compact2DBitArray.cpp:214-237 | it is right for all fingerprints if and only if that condition holds; the writer asks for nothing else |
| CuckooPairs.InvolutionIffPowerOfTwo | include/GenSync/Syncs/Cuckoo.h:287-295 | the alternative bucket leads back for all buckets and hashes if and only if the filter size is a power of two |
| CuckooPairs.PowerOfTwoInvolutive | src/Syncs/Cuckoo.cpp:272-276 | a filter with a power-of-two size is suitable for cuckoo hashing |
| CuckooPairs.AlternativeBits | src/Syncs/Cuckoo.cpp:272-276 | at every size the alternative bucket is the number whose bits are those that differ between bucket and hash, reduced |
| CuckooPairs.AlternativeFlips | src/Syncs/Cuckoo.cpp:272-276 | at a power of two exactly the hash's bits are flipped, and a bucket is its own alternative only for hash zero |
| CuckooPairs.Hashing.InvolutiveReturns | src/Syncs/Cuckoo.cpp:285-286 | on a filter whose size is suitable no operation is refused for its hash |
| CuckooPairs.Hashing.HomeMoves | src/Syncs/Cuckoo.cpp:149-157 | a fingerprint that leads back to its bucket also leads back to the other one, so evictions keep it so |
| CuckooPairs.Hashing.SettledUpdate | src/Syncs/Cuckoo.cpp:253-262 | storing such a fingerprint, or clearing a cell, keeps every stored fingerprint on a pair of buckets |
| CuckooPairs.Hashing.ShareMoves | src/Syncs/Cuckoo.cpp:153 | a fingerprint counts for the same bucket pairs in either of its buckets |
| CuckooPairs.Hashing.BalancedKick | src/Syncs/Cuckoo.cpp:149-157 | one eviction keeps, for every pair, the copies in the table plus the one in hand |
| CuckooPairs.Hashing.ErasedLoses | src/Syncs/Cuckoo.cpp:203-215 | clearing a found cell removes exactly one copy from the item's pair |
| CuckooPairs.Hashing.RunAccurate | src/Syncs/Cuckoo.cpp:128-218 | at every filter size, along any run of insertions, and erasures of live items, every pair holds exactly the copies its live items own |
| CuckooPairs.Hashing.LookupsExact | src/Syncs/Cuckoo.cpp:180-194 | at every filter size, after any such run a lookup that is not refused is true if and only if some live item is indistinguishable from the one asked for; live items are always found |
| CuckooPairs.OccupiedUpdate | src/Syncs/Cuckoo.cpp:130-141 | how one cell's update changes the number of occupied cells |
| CuckooFilter.Cuckoo.constructor | src/Syncs/Cuckoo.cpp:40-50 | a new filter is empty, with count zero and no copy in any pair |
| CuckooFilter.Cuckoo.AddToBucket | src/Syncs/Cuckoo.cpp:253-262 | fills the first empty cell; refuses exactly when the bucket is full |
| CuckooFilter.Cuckoo.FindFingerprint | src/Syncs/Cuckoo.cpp:264-270 | the first cell with the fingerprint, or that there is none |
| CuckooFilter.Cuckoo.RestoreFilter | src/Syncs/Cuckoo.cpp:120-126 | puts recorded slots back last in first out |
| CuckooFilter.UndoPush | src/Syncs/Cuckoo.cpp:155-171 | recording an overwritten slot keeps the undone table the same, even for a slot evicted again |
| CuckooFilter.Cuckoo.Relocate | src/Syncs/Cuckoo.cpp:149-162 | one eviction swaps a random victim for the fingerprint in hand; its other bucket takes it if there is room, which adds one copy to the new item's pair, and otherwise the balance is kept |
| CuckooFilter.Cuckoo.Kick | src/Syncs/Cuckoo.cpp:143-178 | adds one copy to the new item's pair, leaving the table at the end of an eviction chain of at most maxKicks links whose last victim found an empty cell; or restores every cell and the count, and then there is a chain of exactly maxKicks links each of whose victims met a full bucket |
| CuckooFilter.Cuckoo.Link | src/Syncs/Cuckoo.cpp:149-173 | one link of the chain: however it goes on from here, so does the chain from the start, and the slots recorded undo it |
| CuckooPairs.Hashing.FreeVictims | src/Syncs/Cuckoo.cpp:149-173 | no chain is blocked from a bucket all of whose entries could move at once |
| CuckooFilter.Cuckoo.Insert | src/Syncs/Cuckoo.cpp:128-178 | takes the first empty cell of the first bucket, else of the second, else what an eviction chain ends in; refuses only when both buckets are full and some chain of maxKicks links from one of them is blocked, and then changes nothing; adds exactly one copy to the item's pair; the count stays the number of occupied cells |
| CuckooFilter.Cuckoo.Lookup | src/Syncs/Cuckoo.cpp:180-194 | true exactly when the item's pair holds its fingerprint; fails exactly when the hash does not lead back |
| CuckooFilter.Cuckoo.Erase | src/Syncs/Cuckoo.cpp:197-218 | removes one copy when there is one; the cases in which it fails, and that nothing changes then |
| CuckooFilter.FoundErasable | src/Syncs/Cuckoo.cpp:197-199 | erasing an item that a lookup finds does not fail for an empty filter |
| SignedSketch.Hasher.SlotsDistinct | src/Syncs/GenIBLT.cpp:56-67 | the hash functions of a key select distinct cells, for any number of hashes up to the table size |
| SignedSketch.Hasher.SlotInBlock | src/Syncs/GenIBLT.cpp:61-66 | function i selects a cell of the i-th block, at the hash modulo the length of a block |
| SignedSketch.Hasher.CellsApart | src/Syncs/GenIBLT.cpp:56-67 | one key has a cell that another with equally many functions has not, if and only if some function tells them apart modulo the length of a block |
| SignedSketch.Hasher.SumRemove | src/Syncs/GenIBLT.cpp:68-70 | a cell's content does not depend on the order of insertion |
| SignedSketch.CoreUnique | src/Syncs/GenIBLT.cpp:155-171 | the leftover of peeling is unique, whatever the order of cells |
| SignedSketch.PairPeels | src/Syncs/GenIBLT.cpp:155-171 | two such keys have an empty core, so that both are listed, if and only if some function tells them apart |
| SignedSketch.SumMeans | src/Syncs/GenIBLT.cpp:68-70 | what a set adds up to: inserted less erased keys, the XOR of the keys, and the XOR of their checksum hashes |
| SignedSketch.PositiveFaithful | src/Syncs/GenIBLT.cpp:141-148 | with insertions only, no checksum hypothesis is needed |
| GenIBLTs.GenIBLT.constructor | src/Syncs/GenIBLT.cpp:12-27 | a new table is the sketch of no key |
| GenIBLTs.GenIBLT.InsertSigned | src/Syncs/GenIBLT.cpp:50-78 | exactly the cells of the key are bumped; value sums keep matching key sums |
| GenIBLTs.BumpedAdds | src/Syncs/GenIBLT.cpp:50-83 | inserting a signed key that is absent gives the sketch with it |
| GenIBLTs.BumpedRemoves | src/Syncs/GenIBLT.cpp:50-88 | inserting a present key with the opposite sign gives the sketch without it |
| GenIBLTs.BumpedCarries | src/Syncs/GenIBLT.cpp:69-77 | adding a key with its value keeps every value sum that of the keys in the cell, if no cell looks empty that is not |
| GenIBLTs.InsertedHonest | src/Syncs/GenIBLT.cpp:72-77 | which is so when keys are only inserted |
| GenIBLTs.PeelingHonest | src/Syncs/GenIBLT.cpp:160-168 | and while peeling under faithful checksums |
| GenIBLTs.MatchCarries | src/Syncs/GenIBLT.cpp:69-77 | values equal to the keys are one case |
| GenIBLTs.Bump | src/Syncs/GenIBLT.cpp:69-77 | a cell's sketch is added to, and its value is added unless the cell has become empty |
| GenIBLTs.PureCell | src/Syncs/GenIBLT.cpp:141-148 | while peeling, a pure cell holds exactly one remaining key, with that sign |
| GenIBLTs.PureMeans | src/Syncs/GenIBLT.cpp:141-148 | exactly which contents make a cell pass: a net count of one or minus one, and keys whose checksum hashes add up to the hash of what the keys add up to |
| GenIBLTs.SingleCellIsPure | src/Syncs/GenIBLT.cpp:141-148 | a cell with exactly one key is pure, always |
| GenIBLTs.PeelKeepsStuck | src/Syncs/GenIBLT.cpp:159-170 | peeling a cell loses no part that could not be peeled |
| GenIBLTs.AllEmpty | src/Syncs/GenIBLT.cpp:150-178 | all cells are empty if and only if nothing is left |
| GenIBLTs.GenIBLT.Subtract | src/Syncs/GenIBLT.cpp:181-203 | every cell becomes the difference of the two cells |
| GenIBLTs.MinusSketches | src/Syncs/GenIBLT.cpp:181-203 | subtracting the sketches of two sets gives the sketch that inserts one difference and erases the other |
| GenIBLTs.MinusCarries | src/Syncs/GenIBLT.cpp:191-201 | the difference of two tables carries the values of the keys in the difference |
| GenIBLTs.MinusCell | src/Syncs/GenIBLT.cpp:191-201 | the difference of cells is the sum with the negated sketch; value sums keep matching |
| GenIBLTs.GenIBLT.Peel | src/Syncs/GenIBLT.cpp:160-168 | listing one key keeps the invariant of peeling and shrinks what is left |
| GenIBLTs.GenIBLT.PeelPass | src/Syncs/GenIBLT.cpp:158-171 | a pass erases nothing exactly when nothing was left to peel |
| GenIBLTs.GenIBLT.IsEmpty | src/Syncs/GenIBLT.cpp:173-178 | whether every cell is empty |
| GenIBLTs.GenIBLT.ListEntries | src/Syncs/GenIBLT.cpp:155-179 | terminates; lists every peeled key once with its sign and the value it was inserted with; what is left is the unique core, still sketched by the table; true if and only if nothing is left |
| GenIBLTs.StuckWithoutPure | src/Syncs/GenIBLT.cpp:156-171 | where no cell is pure, no cell holds exactly one key |
| IBLTSyncs.IBLTSync.constructor | src/Syncs/IBLTSync.cpp:10-21 | a new peer holds nothing |
| IBLTSyncs.IBLTSync.AddElem | src/Syncs/IBLTSync.cpp:155-160 | the table stays the sketch of the elements |
| IBLTSyncs.IBLTSync.DelElem | src/Syncs/IBLTSync.cpp:161-166 | the table stays the sketch of the elements |
| IBLTSyncs.IBLTSync.SendTable | src/Syncs/IBLTSync.cpp:50 | the table as it is goes to the server's queue |
| IBLTSyncs.IBLTSync.SyncServer | src/Syncs/IBLTSync.cpp:108-137 | the two lists are exactly the differences outside the core, each element once, and are sent in that order; success if and only if the core is empty, which is when they are the whole differences |
| IBLTSyncs.IBLTSync.ReceiveDifferences | src/Syncs/IBLTSync.cpp:54-63 | the server's two lists arrive with the roles swapped |
| IBLTSyncs.IBLTSync.AddAll | include/GenSync/Aux/SyncMethod.h:116-123 | adding a received list adds its elements to the set and the sketch |
| IBLTSyncs.RestDiffers | src/Syncs/IBLTSync.cpp:54-63 | when each side adds what was listed for it, the sets differ by what was left |
| IBLTSyncs.Synchronize | src/Syncs/IBLTSync.cpp:25-146 | end to end: afterwards the peers differ by exactly the core of their difference, so on success both hold the union; when each peer reports success |
| MetIBLTs.MetIBLT.Insert | src/Syncs/MET_IBLT.cpp:47-53 | all tables sketch the set with the new key |
| MetIBLTs.ListTable | src/Syncs/MET_IBLT.cpp:79-99 | what one table lists, without any checksum hypothesis |
| MetIBLTs.EraseAll | src/Syncs/MET_IBLT.cpp:103-110 | erasing keys listed elsewhere leaves the sketch of the others |
| MetIBLTs.MetIBLT.ListAll | src/Syncs/MET_IBLT.cpp:73-101 | every table sketches what it did not list itself; nothing negative is found |
| MetIBLTs.MetIBLT.PeelOnce | src/Syncs/MET_IBLT.cpp:68-113 | after a round all tables sketch the same remaining set; nothing listed means no table can peel |
| MetIBLTs.MetIBLT.PeelAll | src/Syncs/MET_IBLT.cpp:115-139 | terminates; lists each recovered key once; the leftover is the largest set no table can peel; true if and only if everything was recovered |
| MultisetSketch.SubModHash | src/Syncs/IBLTMultiset.cpp:22-30 | the signed remainder and correction give the difference in the range of the modulus |
| MultisetSketch.AddModHash | src/Syncs/IBLTMultiset.cpp:33-41 | likewise for the sum |
| MultisetSketch.SumBump | src/Syncs/IBLTMultiset.cpp:57-63 | changing one multiplicity changes a cell's image linearly |
| MultisetSketch.SumLess | src/Syncs/IBLTMultiset.cpp:231-233 | the image of a difference of multiplicities is the difference of images |
| IBLTMultisets.IsMultiPure | src/Syncs/IBLTMultiset.cpp:156-174 | the accumulating loop decides the multi-pure test |
| IBLTMultisets.TestsMean | src/Syncs/IBLTMultiset.cpp:139-174 | the tests in terms of what a cell adds up to: the checksums are those of as many copies of the quotient rounded down, or of the one key |
| IBLTMultisets.CopiesIff | src/Syncs/IBLTMultiset.cpp:139-174 | a cell with the count and key sum of n copies passes if and only if its checksum is n times the key's hash modulo the prime |
| IBLTMultisets.FloorDivMeans | src/Syncs/IBLTMultiset.cpp:158 | which number the rounded-down quotient is, for both signs |
| IBLTMultisets.BumpedSketches | src/Syncs/IBLTMultiset.cpp:43-72 | inserting or erasing a key changes its multiplicity by one in the image |
| IBLTMultisets.BumpedCarries | src/Syncs/IBLTMultiset.cpp:57-70 | and keeps every value sum that of the copies in the cell, if no cell looks empty that is not |
| IBLTMultisets.MinusSketches | src/Syncs/IBLTMultiset.cpp:219-242 | subtraction of tables is subtraction of multiplicities |
| IBLTMultisets.MinusCarries | src/Syncs/IBLTMultiset.cpp:219-242 | the difference of two tables carries the values of the difference |
| IBLTMultisets.CopiesRecognised | src/Syncs/IBLTMultiset.cpp:139-174 | a nonzero number of copies of one key always passes the tests and divides out to the key |
| IBLTMultisets.PureCell | src/Syncs/IBLTMultiset.cpp:139-174 | while peeling under faithful checksums, a cell that passes holds copies of one remaining key |
| IBLTMultisets.UnreachableBranch | src/Syncs/IBLTMultiset.cpp:195-202 | a cell takes the branch logged as unreachable if and only if count and key sum have opposite signs, the count is one, and the checksum is that of the negated absolute key sum and not of the absolute one |
| IBLTMultisets.UnreachableBranchReached | src/Syncs/IBLTMultiset.cpp:195-202 | two insertions of one key and an erasure of another, under a colliding checksum, give a table in which every cell takes that branch |
| IBLTMultisets.SingleKeyFaithful | src/Syncs/IBLTMultiset.cpp:139-174 | the checksum hypothesis holds for differences of one key |
| IBLTMultisets.PeelKeeps | src/Syncs/IBLTMultiset.cpp:182-206 | listing copies of a key alone in a cell loses no set of keys that peeling cannot touch, and a key listed in part stays alone in some cell |
| IBLTMultisets.CoreLeft | src/Syncs/IBLTMultiset.cpp:178-209 | where no cell holds copies of a single key, what is left is that unique set, with all copies of its keys |
| IBLTMultisets.IBLTMultiset.constructor | src/Syncs/IBLTMultiset.cpp:12-19 | the table has the smallest sufficient multiple of the number of hashes, and sketches nothing |
| IBLTMultisets.IBLTMultiset.InsertModular | src/Syncs/IBLTMultiset.cpp:43-72 | exactly the cells of the key are bumped |
| IBLTMultisets.IBLTMultiset.Subtract | src/Syncs/IBLTMultiset.cpp:219-242 | the table becomes the image of the difference of multiplicities |
| IBLTMultisets.IBLTMultiset.Peel | src/Syncs/IBLTMultiset.cpp:182-206 | one copy is listed with its sign and the number of copies left drops |
| IBLTMultisets.IBLTMultiset.PeelPass | src/Syncs/IBLTMultiset.cpp:178-209 | a pass that erases nothing found no recognisable cell |
| IBLTMultisets.IBLTMultiset.ListEntries | src/Syncs/IBLTMultiset.cpp:176-217 | terminates; listed copies, each with its key's value, and copies left make up the original multiplicities, by sign; each key is wholly listed or wholly left, and those left are the unique largest set in which no cell holds a single key; true if and only if every copy was listed |
| IBLTMultisets.AllEmpty | src/Syncs/IBLTMultiset.cpp:211-216 | all cells are empty if and only if nothing is left |
| IBLTMultisets.NothingPure | src/Syncs/IBLTMultiset.cpp:182-191 | where no test passes, no cell holds copies of a single key |
| PrimeField.NoZeroDivisors | src/Syncs/CPISync.cpp:82-83 | the prime modulus makes evaluations a field |
| PrimeField.Divide | src/Syncs/CPISync.cpp:295 | field division is undone by multiplication |
| Polynomials.ManyRoots | src/Syncs/CPISync.cpp:117-151 | a polynomial with more distinct roots than its degree is zero |
| Interpolation.ChiZero | src/Syncs/CPISync.cpp:767-768 | a characteristic polynomial vanishes exactly at its members |
| Interpolation.InterpolantUnique | src/Syncs/CPISync.cpp:117-151 | every interpolant of enough samples has the ratio of the true differences |
| Interpolation.DifferencesInterpolate | src/Syncs/CPISync.cpp:135-151 | the true differences, times any monic polynomial within the bounds, solve the interpolation |
| Interpolation.ReducedCross | src/Syncs/CPISync.cpp:225-229 | dividing out the common divisor keeps the ratio |
| RationalSystem.BuildMatrix | src/Syncs/CPISync.cpp:141-151 | the filled matrix is the linear system of the samples |
| RationalSystem.RebuildMatrix | src/Syncs/CPISync.cpp:158-180 | copying the columns past the first mDiff of each half, with new right-hand sides, gives exactly the system of the lowered bounds on its first samples |
| RationalSystem.SolutionInterpolates | src/Syncs/CPISync.cpp:135-151 | a vector solves a sample's equation if and only if the two monic polynomials it encodes match the ratio there |
| RationalSystem.DegreeBounds | src/Syncs/CPISync.cpp:125-131 | the truncated degree bounds are large enough, nonnegative and differ by the size difference whenever the samples suffice |
| RationalSystem.HalfTruncates | src/Syncs/CPISync.cpp:125-131 | division truncates towards zero, so a bound is negative only from minus two on |
| RationalSystem.SolvedSystem | src/Syncs/CPISync.cpp:135-151 | a vector that solves the system of the samples, taken at the truncated degree bounds, is an interpolant |
| CPIRank.KernelIsMultiple | src/Syncs/CPISync.cpp:154-165 | with enough samples, every vanishing combination of the columns is a multiple of the two differences, by a polynomial of as many coefficients as the bounds exceed them |
| CPIRank.MultipleInKernel | src/Syncs/CPISync.cpp:154-165 | and every such multiple is a vanishing combination |
| LowCoefficients.MulLow | src/Syncs/CPISync.cpp:154-165 | the lowest nonzero coefficients of two polynomials multiply, which tells at which column a multiple ends |
| CPIRank.DependentColumns | src/Syncs/CPISync.cpp:154-165 | exactly which columns depend on those before them |
| CPIRank.RankDeficiency | src/Syncs/CPISync.cpp:154-165 | the number of columns without a pivot, mDiff, is exactly what either degree bound exceeds its difference by |
| LinearSystem.BackSubstitute | src/Syncs/CPISync.cpp:185-192 | the unknowns computed from the bottom up satisfy every row of a triangular system |
| LinearSystem.TriangularUnique | src/Syncs/CPISync.cpp:185-192 | every solution of the system agrees with the one computed |
| RatFuncInterps.Eliminated | src/Syncs/CPISync.cpp:154-182 | elimination lowers the bounds to the sizes of the differences, and there leaves a triangular system that the differences solve |
| RatFuncInterps.TargetSolves | src/Syncs/CPISync.cpp:135-151 | the coefficients of the two differences solve the system of their own bounds |
| RatFuncInterps.Determined | src/Syncs/CPISync.cpp:185-205 | back substitution then gives the polynomials of the differences, and nothing else |
| RatFuncInterps.RatFuncInterp | src/Syncs/CPISync.cpp:109-213 | from enough samples the whole procedure, whichever way the rank falls, returns the characteristic polynomials of the two differences; it gives up when the sizes differ by at least two more than the samples, and what it returns is monic within the samples |
| Eliminations.CanReduce | src/Syncs/CPISync.cpp:154 | a system with independent columns can be made triangular keeping its solutions |
| LibraryModel.LibraryExists | src/Syncs/CPISync.cpp:154-250 | elimination, divisors, quotients and factors with everything the model asks of them exist for every prime |
| CPIReconciliation.GreatestIsLowest | src/Syncs/CPISync.cpp:224-229 | after dividing by a greatest common divisor no common root remains |
| CPIReconciliation.SharedCofactor | src/Syncs/CPISync.cpp:224-229 | an interpolant is the true differences times one shared monic polynomial |
| CPIReconciliation.ReducedAreDifferences | src/Syncs/CPISync.cpp:215-273 | the reduced numerator and denominator have the degrees and the values of the characteristic polynomials of the two differences |
| CPIReconciliation.ReconciliationSucceeds | src/Syncs/CPISync.cpp:236-269 | a list splits the reduced polynomial into linear factors if and only if it lists the difference |
| CPIReconciliation.ReconciliationPasses | src/Syncs/CPISync.cpp:577-606 | a reconciliation with enough samples passes the redundancy check at every sample |
| CPIReconciliation.LoweredBounds | src/Syncs/CPISync.cpp:158-183 | at bounds equal to the sizes of the differences, to which RankDeficiency shows they are lowered, the only interpolant is the differences themselves |
| SquareFreeness.DerivativeAt | src/Syncs/CPISync.cpp:232-234 | the formal derivative at a point is the value there of the quotient by that root |
| SquareFreeness.SimpleRoots | src/Syncs/CPISync.cpp:232-234 | the derivative of a characteristic polynomial vanishes at no member |
| SquareFreeness.SquareFree | src/Syncs/CPISync.cpp:232-234 | only the constant one divides both a characteristic polynomial and its derivative |
| SquareFreeness.ReducedAreSquareFree | src/Syncs/CPISync.cpp:231-237 | with enough samples both square-freeness tests pass |
| SetReconciles.NothingToReduce | src/Syncs/CPISync.cpp:224-229 | the polynomials of the two differences have no common divisor to divide out |
| SetReconciles.FactorsListMembers | src/Syncs/CPISync.cpp:239-269 | a factorization of the characteristic polynomial of a set has only linear factors, whose constant terms list the members once each |
| Fractions.RepeatedCommon | src/Syncs/CPISync.cpp:232-234 | a root listed twice is a common divisor of the polynomial and its derivative |
| Fractions.LinearProduct | src/Syncs/CPISync.cpp:239-269 | linear factors multiply to the product over their roots |
| Fractions.LowestIsFraction | src/Syncs/CPISync.cpp:224-269 | quotients in lowest terms with distinct roots write the fraction as products over two lists with nothing in common |
| Fractions.FractionIsLowest | src/Syncs/CPISync.cpp:224-269 | two such lists determine the quotients in lowest terms |
| SetReconciles.PassedRoots | src/Syncs/CPISync.cpp:231-269 | what passes the square-freeness test and has only linear factors is the product over different roots |
| SetReconciles.FractionPasses | src/Syncs/CPISync.cpp:231-263 | where there are such lists every test passes |
| SetReconciles.FindRoots | src/Syncs/CPISync.cpp:215-275 | for any monic numerator and denominator, succeeds if and only if their fraction is one of products over two lists of different roots with nothing in common, and returns such lists; for the differences it returns the differences |
| SetReconciles.SetReconcile | src/Syncs/CPISync.cpp:277-312 | an attempt finds both differences when the other side has nothing, or when this side has something and the samples suffice; without own elements it finds nothing; what it finds never repeats or shares an element |
| SetReconciles.ServerTest | src/Syncs/CPISync.cpp:573-607 | the attempt followed by the redundancy check: accepted with the differences in the same cases; whatever is accepted satisfies the product equation of the two whole sets at every redundant sample; a server without elements accepts exactly when all redundant evaluations of the client are one |
| SetReconciles.PassesMeans | src/Syncs/CPISync.cpp:583-606 | the check on remainders holds if and only if the products over the whole sets and lists agree |
| CPISyncs.CPISync.constructor | src/Syncs/CPISync.cpp:25-85 | an empty peer's evaluations are those of the empty set |
| CPISyncs.CPISync.FindSlot | src/Syncs/CPISync.cpp:745-758 | the element's own slot without hashing, the first free probe with it; when there is none |
| CPISyncs.CPISync.FindFree | src/Syncs/CPISync.cpp:745-758 | double hashing stops at the first free probe, or when the map is full |
| CPISyncs.CPISync.ProbeIs | src/Syncs/CPISync.cpp:745-758 | the first attempt is the number's own residue and each later one 101 places further on, unless the sum of residues reaches the field size |
| CPISyncs.CPISync.OwnResidue | src/Syncs/CPISync.cpp:745-758 | a free residue is taken |
| CPISyncs.AddToBoth | src/Syncs/CPISync.cpp:745-765 | two peers store elements with equal numbers at the same hash when it is free at both |
| CPISyncs.CPISync.AddElem | src/Syncs/CPISync.cpp:734-772 | adds if and only if there is room and, without hashing, the number is in range and free; exactly that entry is new, at the number's residue when that is free, and the evaluations are those of the stored hashes; the element joins the list even when it is refused |
| CPISyncs.CPISync.DelElem | src/Syncs/CPISync.cpp:776-804 | succeeds if and only if the list holds the element and no division is by zero; exactly its slots go, and the evaluations stay those of the stored hashes if and only if there was one such slot, with an exact condition for any number of slots |
| CPISyncs.CPISync.EraseSlots | src/Syncs/CPISync.cpp:787-796 | every slot that holds the element goes, and the last one in ascending order is divided out, or 0 if there is none |
| CPISyncs.CPISync.DivideAll | src/Syncs/CPISync.cpp:799-801 | every evaluation is divided by the factor, unless one factor is zero |
| CPISyncs.CPISync.DividedAccurate | src/Syncs/CPISync.cpp:799-801 | the divided evaluations are those of the remaining slots exactly where the factor divided out equals that of all erased slots or the rest vanishes |
| CPISyncs.CPISync.OneSlotExact | src/Syncs/CPISync.cpp:786-801 | with more samples than copies that is so at all samples if and only if there is exactly one slot |
| CPISyncs.DeleteRefused | src/Syncs/CPISync.cpp:751-754 | without hashing, any second element with a taken number is refused, can be deleted, and leaves wrong evaluations |
| CPISyncs.RefusedThenDeleted | src/Syncs/CPISync.cpp:776-804 | an input for which that happens |
| CPISyncs.NotAlwaysOne | src/Syncs/CPISync.cpp:799-801 | the product over some data is not one at as many samples |
| CPISyncs.CPISync.RedundancyCheck | src/Syncs/CPISync.cpp:583-606 | true if and only if both products agree at every redundant sample |
| CPISyncs.CPISync.Ratios | src/Syncs/CPISync.cpp:292-295 | the quotients are the sampled ratios of the two characteristic polynomials |
| CPISyncs.TrueDifferencesPass | src/Syncs/CPISync.cpp:583-606 | the true differences always pass, because common elements cancel |
| CPISyncs.NeverZero | src/Syncs/CPISync.cpp:31-35 | no evaluation is zero when the field is large enough |
| CPISyncs.NonzeroIffRoomy | src/Syncs/CPISync.cpp:81-85 | evaluations of all data are nonzero if and only if the field size is strictly larger than the data range plus the samples |
| CPIDoubling.LockstepKept | src/Syncs/CPISync.cpp:436-486 | every step of either peer keeps the invariant of the loops: equal bounds between rounds and the server holding a prefix of the client's evaluations |
| CPIDoubling.RunLockstep | src/Syncs/CPISync.cpp:403-660 | the invariant holds in every state of every run |
| CPIDoubling.NeverStuck | src/Syncs/CPISync.cpp:454-486 | no peer waits for a message that does not come, or uses an index out of range |
| CPIDoubling.StepsRunOut | src/Syncs/CPISync.cpp:481 | every step brings the end closer, since the bound doubles up to its maximum |
| CPIDoubling.RunsEndInAgreement | src/Syncs/CPISync.cpp:561-660 | every run has a bounded length, and ends with both peers in the same round with the same verdict and differences |
| CPIDoubling.CoveredDifferencesSucceed | src/Syncs/CPISync.cpp:569-660 | if tests succeed once the bound covers the difference, every run that ends has succeeded, and with the true differences when its bound covers them |
| CPIDoubling.BoundsKept | src/Syncs/CPISync.cpp:481-484 | every bound is a power of two, or maxDiff, and below twice the larger of one and the differences; after a failed test it was too small |
| CPIDoubling.OneWayRun | src/Syncs/CPISync.cpp:454-460 | the state of one-way runs after each number of steps, where the client stops after its first evaluations |
| CPIDoubling.OneWayRunsEnd | src/Syncs/CPISync.cpp:647-656 | every one-way run takes at most five steps and stops only with both peers finished, the client successfully |
| CPIDoubling.OneWayCovered | src/Syncs/CPISync.cpp:612-632 | a one-way run whose test finds a covered difference ends with the true differences at the server |
| CPIEndToEnd.TestStep | src/Syncs/CPISync.cpp:561-632 | the server's code, run on a state of the loops, takes a step with the result proved of it |
| CPIEndToEnd.ReceivedEvaluations | src/Syncs/CPISync.cpp:565-580 | what the server tests is always a prefix of the client's evaluations, over all rounds |
| CPIEndToEnd.SyncGoesOn | src/Syncs/CPISync.cpp:403-660 | in both modes a synchronization can go on exactly until both peers have stopped |
| CPIEndToEnd.TestsTellTruth | src/Syncs/CPISync.cpp:569-660 | unless only the server is empty, each test at a bound that covers the differences finds them |
| CPIEndToEnd.SuccessIsConsistent | src/Syncs/CPISync.cpp:403-660 | however many differences and in either mode, success means the same lists at both peers, without repeats or common elements, that satisfy the product equation at every redundant sample of the last round |
| CPIEndToEnd.SyncSucceeds | src/Syncs/CPISync.cpp:403-660 | end to end: a synchronization of at most maxDiff differences ends in agreement on success, and with both peers knowing the true differences if its last bound covers them, which it does without doubling; with doubling the last bound is below twice what was needed |
| CPIEndToEnd.OneWaySyncSucceeds | src/Syncs/CPISync.cpp:403-660 | likewise for one-way mode, at the server |
| CPIEndToEnd.EmptyServer | src/Syncs/CPISync.cpp:286-287 | a server without elements never finds anything, and reports success exactly when the client's redundant evaluations are one |
| CPIEndToEnd.SyncSucceedsIff | src/Syncs/CPISync.cpp:277-312 | covered differences end up known to both peers if and only if the server is not the only empty side: without doubling whenever they are at most maxDiff, with doubling whenever the last bound covers them |
| CPIEndToEnd.OneWaySyncSucceedsIff | src/Syncs/CPISync.cpp:277-312 | likewise for one-way mode, at the server |
| CPIEndToEnd.OneElementRefused | src/Syncs/CPISync.cpp:286-287 | a server without elements and a client with one end in agreement on failure |
| InterCPISync.CreateChildren | src/Syncs/InterCPISync.cpp:534-560 | the filled array holds the children of the protocol's model; an empty range leaves them missing |
| InterCPISync.FindBin | src/Syncs/InterCPISync.cpp:550-556 | the first bin that holds the element, else the last child |
| InterCPISync.ChildShare | src/Syncs/InterCPISync.cpp:498-506 | the children's ranges follow each other through the whole range in even shares, the last wider by less than the number of children |
| InterCPISync.StepsCommute | src/Syncs/InterCPISync.cpp:439-628 | steps of the two peers neither disable nor change each other |
| InterCPISync.OrderIrrelevant | src/Syncs/InterCPISync.cpp:439-628 | a reachable stopping state stays reachable, one step closer, whichever step is taken |
| InterCPISync.AllRunsConverge | src/Syncs/InterCPISync.cpp:439-628 | if one order of steps stops somewhere, every run leads there |
| InterCPIRuns.PositionBin | src/Syncs/InterCPISync.cpp:547-556 | the child of an element is the bin around it, the last one for elements beyond the bins |
| InterCPIRuns.NarrowChild | src/Syncs/InterCPISync.cpp:536-537 | in a range narrower than the partition factor each child holds at most one element |
| InterCPIRuns.WideChild | src/Syncs/InterCPISync.cpp:498-506 | in a wider range each child's range holds its elements and is narrower |
| InterCPIRuns.ChildrenMatch | src/Syncs/InterCPISync.cpp:495-506 | both peers' children match and each pair of visits causes less work than its parents |
| InterCPIRuns.ClientHasNothing | src/Syncs/InterCPISync.cpp:562-577 | a missing client node: the server's elements are listed on both sides |
| InterCPIRuns.NothingToSend | src/Syncs/InterCPISync.cpp:570-578 | a missing client node and an empty server node: the visit ends with nothing listed |
| InterCPIRuns.ServerHasNothing | src/Syncs/InterCPISync.cpp:446-456 | an empty server node: the client's elements are listed on both sides |
| InterCPIRuns.SyncedVisit | src/Syncs/InterCPISync.cpp:476-530 | a node synchronization that succeeds lists the nodes' differences and ends the visit |
| InterCPIRuns.FailedVisit | src/Syncs/InterCPISync.cpp:476-506 | one that fails sends both peers to the children, listing nothing |
| InterCPIRuns.LaterSplits | src/Syncs/InterCPISync.cpp:545-558 | the difference at a child and those at the later ones make up the whole, without repeats |
| InterCPIRuns.VisitEnds | src/Syncs/InterCPISync.cpp:439-628 | a visit ends and lists exactly the difference of the two nodes, whatever the node synchronizations do beyond their contract |
| InterCPIRuns.FirstMessages | src/Syncs/InterCPISync.cpp:439-446 | a peer declares that it has nothing exactly when it has no elements |
| InterCPIRuns.SyncIsExact | src/Syncs/InterCPISync.cpp:97-189 | for all sets and every interleaving: runs are bounded, and stop only with empty queues and exactly the two differences listed |
| CpcBitStream.MaybeFlush | incubator-datasketches-cpp/cpc/include/cpc_compressor_impl.hpp:445-451 | moving a full word out keeps the stream written so far |
| CpcBitStream.MaybeFill | incubator-datasketches-cpp/cpc/include/cpc_compressor_impl.hpp:453-458 | enough bits become available without reading past the last word, as long as they are still to be read |
| CpcBitStream.Emit | incubator-datasketches-cpp/cpc/include/cpc_compressor_impl.hpp:475-480 | appends the bits of a value to the stream |
| CpcBitStream.FinalFlush | incubator-datasketches-cpp/cpc/include/cpc_compressor_impl.hpp:487-491 | the words are the stream and fewer than 32 zeros |
| CpcByteCodec.MakeDecodingTable | incubator-datasketches-cpp/cpc/include/cpc_compressor_impl.hpp:66-82 | every 12-bit window that begins with a codeword maps to its symbol and length |
| CpcByteCodec.OneMatch | incubator-datasketches-cpp/cpc/include/cpc_compressor_impl.hpp:63-82 | no window begins with two codewords |
| CpcByteCodec.ValidateDecodingTable | incubator-datasketches-cpp/cpc/include/cpc_compressor_impl.hpp:84-98 | the self-check passes if and only if every entry agrees with its symbol's codeword |
| CpcByteCodec.CompressBytes | incubator-datasketches-cpp/cpc/include/cpc_compressor_impl.hpp:462-492 | the words are the concatenated codewords and at least 11 zeros, within the safe length |
| CpcByteCodec.EncodedLength | incubator-datasketches-cpp/cpc/include/cpc_compressor_impl.hpp:416-420 | between one and twelve bits for each byte |
| CpcByteCodec.WindowRoomIsLeast | incubator-datasketches-cpp/cpc/include/cpc_compressor_impl.hpp:416-420 | the reserved words are the fewest that hold twelve bits for each byte and the padding |
| CpcByteCodec.HeadSymbol | incubator-datasketches-cpp/cpc/include/cpc_compressor_impl.hpp:511-514 | the 12-bit look-ahead decides the next symbol |
| CpcByteCodec.UncompressBytes | incubator-datasketches-cpp/cpc/include/cpc_compressor_impl.hpp:494-524 | recovers the bytes from any words that hold their encoding and 11 more bits, without overrun |
| CpcByteCodec.RoundTrip | incubator-datasketches-cpp/cpc/include/cpc_compressor_impl.hpp:462-524 | every byte array comes back, for every prefix-free code |
| CpcPairCodec.WriteUnary | incubator-datasketches-cpp/cpc/include/cpc_compressor_impl.hpp:682-707 | appends the unary code of any value, sixteen zeros at a time |
| CpcPairCodec.ReadUnary | incubator-datasketches-cpp/cpc/include/cpc_compressor_impl.hpp:655-680 | reads the value back over any number of eight-bit chunks, given seven more bits |
| CpcPairCodec.FollowsIffGreater | incubator-datasketches-cpp/cpc/include/cpc_compressor_impl.hpp:564-567 | the two order checks accept a pair if and only if it is greater than the one before |
| CpcPairCodec.EncodedPairsLength | incubator-datasketches-cpp/cpc/include/cpc_compressor_impl.hpp:399-408 | the unary parts of all pairs add up to no more than the shifted row range |
| CpcPairCodec.RoomIsLeast | incubator-datasketches-cpp/cpc/include/cpc_compressor_impl.hpp:398-408 | the reserved words are the fewest that hold the bound on all parts and the padding |
| CpcPairCodec.PrefixFits | incubator-datasketches-cpp/cpc/include/cpc_compressor_impl.hpp:398-414 | any prefix of the pairs, with padding, fits the reserved words |
| CpcPairCodec.CompressPairs | incubator-datasketches-cpp/cpc/include/cpc_compressor_impl.hpp:545-604 | fails if and only if the pairs are not strictly increasing; otherwise writes their encoding and padding within the safe length |
| CpcPairCodec.WritePair | incubator-datasketches-cpp/cpc/include/cpc_compressor_impl.hpp:559-590 | appends the three codes of a pair |
| CpcPairCodec.ReadPair | incubator-datasketches-cpp/cpc/include/cpc_compressor_impl.hpp:626-651 | recovers row and column; the padding covers the 12-bit, 8-bit and base-bit look-aheads |
| CpcPairCodec.UncompressPairs | incubator-datasketches-cpp/cpc/include/cpc_compressor_impl.hpp:606-653 | recovers the pairs without overrun |
| CpcPairCodec.RoundTripPairs | incubator-datasketches-cpp/cpc/include/cpc_compressor_impl.hpp:545-653 | every strictly increasing list of 32-bit pairs comes back, for every number of base bits up to 26 |
| CpcPairCodec.BaseBitsFit | incubator-datasketches-cpp/cpc/include/cpc_compressor_impl.hpp:731-738 | the chosen base bits never exceed 26 for up to 2^26 rows |
| CpcPairCodec.BaseBitsMean | incubator-datasketches-cpp/cpc/include/cpc_compressor_impl.hpp:731-738 | the base bits are the largest for which two to that power times the count is within the remaining places |
| CpcFlavors.GetPairsFromWindow | incubator-datasketches-cpp/cpc/include/cpc_compressor_impl.hpp:712-727 | the array's tail lists the window's set bits in order |
| CpcFlavors.WindowPairsMembers | incubator-datasketches-cpp/cpc/include/cpc_compressor_impl.hpp:718-725 | a pair is listed if and only if its bit is set |
| CpcFlavors.WindowPairsSorted | incubator-datasketches-cpp/cpc/include/cpc_compressor_impl.hpp:718-725 | the list is strictly increasing |
| CpcFlavors.MergeInto | incubator-datasketches-cpp/cpc/include/u32_table_impl.hpp:196-217 | merging into an array that overlaps one input gives the merge of both |
| CpcFlavors.MergeSorted | incubator-datasketches-cpp/cpc/include/u32_table_impl.hpp:196-217 | merging disjoint sorted lists is sorted |
| CpcFlavors.MergeMembers | incubator-datasketches-cpp/cpc/include/u32_table_impl.hpp:196-217 | the merge has the members of both lists |
| CpcFlavors.SplitPairs | incubator-datasketches-cpp/cpc/include/cpc_compressor_impl.hpp:226-243 | splitting in place gives the window bits and, at the bottom, the other pairs in order; it fails if and only if a free-slot marker is met |
| PairSorts.Sink | incubator-datasketches-cpp/cpc/include/u32_table_impl.hpp:232-239 | one element sinks in steps of the gap: a permutation, which with gap one extends the ascending prefix |
| PairSorts.GapPass | incubator-datasketches-cpp/cpc/include/u32_table_impl.hpp:252-260 | a pass permutes, and with gap one sorts |
| PairSorts.KnuthShellSort | incubator-datasketches-cpp/cpc/include/u32_table_impl.hpp:247-262 | the gaps always end in one, so the shell sort sorts |
| PairSorts.IntrospectiveInsertionSort | incubator-datasketches-cpp/cpc/include/u32_table_impl.hpp:226-245 | sorts in place, also when its cost limit makes it switch |
| PairSorts.SortedDistinct | incubator-datasketches-cpp/cpc/include/u32_table_impl.hpp:226-245 | different elements come out strictly increasing, the same ones |
| CpcFlavors.MergedSplits | incubator-datasketches-cpp/cpc/include/cpc_compressor_impl.hpp:200-244 | the merged list of a window and a sorted table splits into the same window and table |
| CpcFlavors.HybridRoundTrip | incubator-datasketches-cpp/cpc/include/cpc_compressor_impl.hpp:200-244 | sort, merge, compress, uncompress and split give back the window and the table, in ascending order, whatever order the table was in |
| CpcFlavors.PinnedShift | incubator-datasketches-cpp/cpc/include/cpc_compressor_impl.hpp:251-253 | moving the columns by eight keeps the row and is undone |
| CpcFlavors.ShiftColumns | incubator-datasketches-cpp/cpc/include/cpc_compressor_impl.hpp:255-259 | moves every column in place; fails if and only if one lies inside the window |
| CpcFlavors.UnshiftColumns | incubator-datasketches-cpp/cpc/include/cpc_compressor_impl.hpp:276-280 | moves them back; fails if and only if one would leave its row |
| CpcFlavors.PinnedRoundTrip | incubator-datasketches-cpp/cpc/include/cpc_compressor_impl.hpp:246-283 | shift, sort, compress, uncompress and shift back give the original pairs in ascending order, or the first step fails; it fails if and only if a column lies inside the window |
| CpcFlavors.MakeInversePermutation | incubator-datasketches-cpp/cpc/include/cpc_compressor_impl.hpp:51-61 | the array is the inverse on both sides, and the self-check passes |
| CpcFlavors.RotatedOutside | incubator-datasketches-cpp/cpc/include/cpc_compressor_impl.hpp:304-306 | the rotation keeps a column below 56 if and only if it is outside the window, and is undone |
| CpcFlavors.SlideRoundTrip | incubator-datasketches-cpp/cpc/include/cpc_compressor_impl.hpp:299-343 | rotation and permutation of a pair are undone by the inverse permutation and the opposite rotation |
| CpcFlavors.SlideInPlace | incubator-datasketches-cpp/cpc/include/cpc_compressor_impl.hpp:296-310 | transforms every pair in place; fails if and only if the offset is out of range or a column lies inside the window |
| CpcFlavors.SlideBackAll | incubator-datasketches-cpp/cpc/include/cpc_compressor_impl.hpp:334-344 | undoes the transformation of every pair in place |
| CpcFlavors.SlidingRoundTrip | incubator-datasketches-cpp/cpc/include/cpc_compressor_impl.hpp:286-347 | transform, sort, compress, uncompress and transform back give the original pairs, each once; it fails if and only if a column lies inside the window |

## Left out

- NTL's gauss: enters through what it promises, that it finds a pivot in each column independent of those before it, and that reduction keeps every solution; the row operations themselves are not part of this model.
- RatFuncInterps.RatFuncInterp: with fewer samples than differences nothing is promised; when the lowered bounds are negative or the second elimination again lacks a pivot, which enough samples exclude, the model returns a failure where the source would divide by zero or read past a vector.
- RationalSystem.SolvedSystem: states what a solution means at bounds that are not lowered; the lowered case is RatFuncInterps.Determined.
- NTL's GCD, division and SFBerlekamp: enter through what they promise for degrees below the field size, a common divisor that no common divisor exceeds, the exact quotient, and a complete factorization into irreducible factors; NextPrime enters as any prime that large.
- CPIReconciliation.GreatestDivisor: states the divisor by values at all field points, which for degrees below the field size is the same as by coefficients.
- CPISyncs.CPISync.FindSlot: with hashing and room left, a ghost argument names an attempt that finds a free slot, because the probe need not visit every slot.
- CPISyncs.CPISync.DelElem: elements are compared by identity, as the pointers are; from as many copies as samples on, the condition for exact evaluations is stated by the factors at each sample only.
- SetReconciles.SetReconcile: own elements are sent in any order; the exchange of element values after a synchronization (src/Syncs/CPISync.cpp:314-358) and the parameter handshakes are not part of this model.
- CPIEndToEnd.SyncSucceeds: at bounds smaller than the difference a test may accept wrong lists, with a probability that is not modelled; SuccessIsConsistent says what such lists satisfy.
- InterCPISync.StepsCommute: the node synchronization inside a visit is one exchange with an outcome that is any function of the two sets that succeeds on small differences; lists are multisets, as the order of elements is not fixed.
- Legacy tree code of the interactive protocol (_addElem, _delElem, _createTreeNode and the overloads without ranges), which the ranged protocol does not use.
- IBLTSyncs.Synchronize: the handshake compares the number of cells only, and both peers' hash families agree when the sizes do.
- IBLTSyncs.IBLTSync.AddElem: takes elements that are not present, and deletion takes elements that are, since the table is the sketch of a set.
- GenIBLT::get and IBLTMultiset::get, the exits on a wrong value size, serialization, and tables of tables (the insert and erase overloads for child tables).
- GenIBLTs.GenIBLT.constructor: takes the number of cells, at least the number of hashes of any key; the formula for the expected number of entries is not modelled. Counts and sums are not bounded by 64 bits.
- MetIBLTs.MetIBLT.PeelAll: one-sided differences only; keys listed with a negative sign would be erased again rather than inserted.
- IBLTMultisets.IBLTMultiset.ListEntries: keys are positive and the checksum hypothesis is on what single cells hold while peeling; probabilities of collisions are not modelled.
- CuckooFilter.Cuckoo.Insert: fingerprints are nonzero and fit a cell, and the random bucket and victim are arbitrary choices; the sizing constructor and the wire transfer are not part of this model.
- BitArray.Compact2DBitArray.SetEntry: takes values that fit the entry width, as the filter's fingerprints do.
- BitArray.Compact2DBitArray.constructor: the guards' exceptions are its preconditions and byte counts are exact ceilings; the big-endian branch of setEntry is not part of this model.
- make_from_pairs and the unwrapping of table slots: the table is a list of different pairs in any order.
- determine_pseudo_phase, determine_correct_offset and the coding tables themselves: any prefix-free code, any permutation of 56 columns and any offset up to 56, the same at both ends.
- The windows of the pinned and sliding flavors are byte arrays and covered by the byte codec.
- Sockets, logging, timers, statistics, builders and main programs; Bloom filters, frequency sketches, and the other synchronization methods, which would add only easy or probabilistic members.
