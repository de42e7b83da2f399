# tzap verification

A Dafny model of the parts of tzap, a self-healing archive, whose correctness cannot be read off one
function, with proofs over all inputs and all runs. `dafny verify dfyconfig.toml` checks the whole project.

What is modelled, by module:

- **Erasure coding** (`Bits`, `Gf16`, `Gf16Order`, `Gf16Tables`, `Matrix`, `Cauchy`, `Bytes`, `Shards`, `Fec`).
  The field of 65536 elements from its shift-and-reduce multiplication, the order of 2 and the log tables,
  in-place Gauss-Jordan inversion, Cauchy parity, the byte-level kernels, and the main law: any D surviving
  shards out of D+P restore the data.
- **Sparse streams** (`Decimal`, `Sparse`, `SparseMap`, `Auxiliary`, `Extents`, `Input`, `SparseReader`, `DenseReader`,
  `ExtentQuery`). The byte-at-a-time validator against the one-shot parser for every chunking, and the two input readers
  that must deliver a promised length although the file shrinks underneath them.
- **Canonical codecs** (`Pax`, `Timestamp`, `Names`, `AclText`, `Acl`, `AclGrammar`, `AclExample`, `WindowsEa`,
  `WindowsEaText`). Printers and parsers as mutual inverses, with the exact set of accepted texts stated apart from the
  parsers, and concrete texts byte for byte.
- **Padding and padded AEAD objects** (`Padding`, `Aead`).
- **The clone re-sharing pass** (`CloneGroups`, `ClonePass`). A file-system protocol, over every schedule of failing calls.

`Format` holds the errors, `Arithmetic` two facts about division.

## Modelling choices

- Bytes and field elements are bounded integers and exclusive or is defined bit by bit. 64-bit bounds are written
  out where the source checks them; `usize` is taken to be 64 bits wide.
- Ordered maps are sequences sorted by key. A sort by key is a stable insertion sort.
- The open input file is an object with a content for each call, a shortness for each read, and seeks, reads and
  identity checks that may fail. The kernel of the clone pass is an object with a schedule of failures; a failing
  metadata copy may leave arbitrary metadata on its target. Nobody else writes to the file system during the pass.
- The cryptographic library is a record of functions. `Aead.Ideal` states the laws used: key expansion gives the
  length asked for, opening inverts sealing, a tag is sixteen bytes, and only sealed texts open. They are consistent
  (`Aead.IdealExists`).
- UTF-8 and NFC checks are functions of the text library; the ACL round trips use only that they accept ASCII.
- SHA-256 and the checks of the structured auxiliary kinds are parameters of `Auxiliary`.

## What the proofs found

- **PAX lengths.** A record whose key, value and framing come to 10^k - 1 - k bytes has two self-describing lengths.
  The parser accepts the longer, the printer writes the shorter, so re-encoding an accepted payload keeps its bytes
  exactly when no declared length is a power of ten (`Pax.ParseEncodeRoundTrip`, `Pax.RedundantExample`).
- **Host times.** Converting (i64::MIN, 0) to a host time and back gives nothing, because its magnitude 2^63 does not
  fit an i64. It is the only timespec for which the round trip fails (`Timestamp.SystemTimeRoundTrip`).
- **Shortfalls.** A reader reports everything still owed when it believes the file has ended. That is the number of zeros
  it goes on to substitute exactly if the file gives no further byte. Two things break it:
  - an empty buffer is taken for the end of the file by the dense reader; over buffers of any sizes the report is right
    if and only if none is offered while the next byte is owed and still in the file (`DenseReader.RunDense`,
    `DenseReader.AlarmExample`);
  - after a failed seek the sparse reader does not remember to pad, where a comment at
    `crates/tzap-cli/src/os_input.rs:434-435` promises zeros. If the buffer ends within the extent, the next read takes
    the bytes at the old file position (`SparseReader.StaleExample`). If it ends with the extent, the next read seeks
    to the following extent and, if that succeeds, takes its bytes (`SparseReader.BoundaryExample`). Over buffers of
    any sizes the report is right if and only if no non-empty read after it begins in one of these two ways with a byte
    there (`SparseReader.RunSparse`, `SparseReader.FailedSeekThenRead`).
- **Overlapping clone groups.** An outcome is true when it is made, but a later group that re-shares one of its members
  can make it false by the end of the pass (`ClonePass.OverlapExample`). The exact condition, whatever fails and
  whatever was shared before, is `ClonePass.TrueAtTheEndIff`; for a pass without failures the group map alone decides
  (`ClonePass.FullGroupIff`).
- **Hard links.** A re-shared partner gets a file of its own, so its other names no longer follow it
  (`ClonePass.LinksSplit`, `ClonePass.LinksExample`).
- **ACL text.** A named entry that is not a plain decimal id below 2^32-1 either does not convert or does not come back
  as the same text (`Acl.TextRoundTrip`): `user:bob:rwx:7` comes back as `user:7:rwx` (`Acl.BobComesBackAsSeven`), and
  `user:+5:rwx` as `user:5:rwx` (`Acl.PlusComesBackBare`).
- **Recovery fast path.** With every data shard present, recovery returns their bytes without the checks of repair, so it
  succeeds on odd shard sizes and on too many shards, where repair reports an error (`Fec.RecoverDataBytes`).
- **Unreachable branches.** `FecSingularMatrix` in repair, the trailing-lines error of the sparse validator, and the
  duplicate-principal error of the ACL validator.

## Model

| member | source | states |
|---|---|---|
| `Gf16.MulComm` | crates/tzap-core/src/fec.rs:216-230 | multiplication of 16-bit elements modulo the field polynomial is commutative |
| `Gf16.MulAssoc` | crates/tzap-core/src/fec.rs:216-230 | multiplication is associative |
| `Gf16.MulAddLeft` | crates/tzap-core/src/fec.rs:188-230 | multiplication distributes over exclusive or in its first factor |
| `Gf16.MulAddRight` | crates/tzap-core/src/fec.rs:188-230 | multiplication distributes over exclusive or in its second factor |
| `Gf16.MulOneLeft` | crates/tzap-core/src/fec.rs:216-230 | 1 is a left unit |
| `Gf16.MulOneRight` | crates/tzap-core/src/fec.rs:216-230 | 1 is a right unit |
| `Gf16Order.TwoIsPrimitive` | crates/tzap-core/src/fec.rs:232-248 | no power of 2 below the 65535th is 1, so the table loop cannot close early |
| `Gf16Tables.OrderOfTwo` | crates/tzap-core/src/fec.rs:232-248 | the 65535th power of 2 is 1, so the table loop closes exactly there |
| `Gf16Order.PowersDistinct` | crates/tzap-core/src/fec.rs:232-248 | the exponents the table loop visits give distinct elements |
| `Gf16Order.EveryElementIsAPower` | crates/tzap-core/src/fec.rs:232-248 | the table loop visits every non-zero element |
| `Gf16Order.InverseExists` | crates/tzap-core/src/fec.rs:205-214 | every non-zero element times its 65534th power is 1, so it has an inverse |
| `Gf16Order.InverseIsPower` | crates/tzap-core/src/fec.rs:250-264 | the inverse of a non-zero element is its 65534th power |
| `Gf16Order.NoZeroDivisors` | crates/tzap-core/src/fec.rs:216-230 | a product is zero only if a factor is |
| `Gf16Tables.MulSlow` | crates/tzap-core/src/fec.rs:216-230 | the shift-and-reduce loop computes the polynomial product, which is defined from the other factor's bits |
| `Gf16Tables.BuildTables` | crates/tzap-core/src/fec.rs:232-248 | the doubling loop leaves exp[k] = 2^k for all 131070 indices and log its inverse on non-zero elements, with exp and log inside their ranges |
| `Gf16Tables.TablesInverse` | crates/tzap-core/src/fec.rs:232-248 | log and exp undo each other in both directions and exp repeats with period 65535 |
| `Gf16Tables.TablesUnique` | crates/tzap-core/src/fec.rs:232-248 | any two tables that meet the specification are equal, so the cached tables are the built ones |
| `Gf16Tables.MulWith` | crates/tzap-core/src/fec.rs:192-203 | the table product equals the polynomial product for all 65536 x 65536 inputs, and its index stays inside the table |
| `Gf16Tables.InverseWith` | crates/tzap-core/src/fec.rs:205-214 | table inversion gives the field inverse, and fails exactly on zero |
| `Gf16Tables.PowWith` | crates/tzap-core/src/fec.rs:250-264 | square-and-multiply computes the power for every 32-bit exponent; with exponent 65534 it agrees with table inversion |
| `Matrix.FindPivot` | crates/tzap-core/src/fec.rs:313-352 | finds the first row at or below the diagonal with a non-zero entry, or none exists |
| `Matrix.NormalizePivot` | crates/tzap-core/src/fec.rs:313-352 | swapping and scaling the pivot row makes the pivot 1 and keeps earlier unit columns and the kernel of the augmented matrix |
| `Matrix.EliminateColumn` | crates/tzap-core/src/fec.rs:313-352 | elimination makes one more unit column and keeps the kernel of the augmented matrix |
| `Matrix.NoPivot` | crates/tzap-core/src/fec.rs:313-352 | a column without pivot means the original matrix is singular |
| `Matrix.Reduced` | crates/tzap-core/src/fec.rs:313-352 | a fully reduced augmented matrix holds the inverse in its right half, and the original is regular |
| `Matrix.InvertMatrix` | crates/tzap-core/src/fec.rs:313-352 | returns a matrix that solves exactly the same equations backwards, or FecSingularMatrix; for a square matrix it fails if and only if the matrix is singular |
| `Matrix.InverseIsTwoSided` | crates/tzap-core/src/fec.rs:313-352 | what inversion returns is an inverse on both sides: both products are the identity matrix |
| `Cauchy.CauchyKernel` | crates/tzap-core/src/fec.rs:296-305 | a square Cauchy system over distinct points has only the zero solution |
| `Bytes.XorOfWords` | crates/tzap-core/src/fec.rs:157-172 | exclusive or of two little-endian words is the word of the bytewise exclusive or, at any width |
| `Shards.XorNative` | crates/tzap-core/src/fec.rs:157-172 | the same through native-endian words, for either byte order |
| `Shards.AccumulateXorShard` | crates/tzap-core/src/fec.rs:157-172 | eight bytes at a time and then the remainder: in place, exactly the bytewise exclusive or, at every length |
| `Shards.AccumulateGf16MulShard` | crates/tzap-core/src/fec.rs:174-186 | in place, every little-endian symbol of dest gains c times the symbol of src; an odd last byte is untouched |
| `Shards.Accumulate` | crates/tzap-core/src/fec.rs:25-43 | the three-way choice on the coefficient (0, 1, other) has the effect of multiply-and-add for every coefficient |
| `Shards.CombineShards` | crates/tzap-core/src/fec.rs:25-43 | accumulating over all shards gives, symbol by symbol, the linear combination of the shards |
| `Fec.ValidateCounts` | crates/tzap-core/src/fec.rs:278-287 | accepts exactly at least one data shard and at most 65535 in total; otherwise no data shards, or too many with their number |
| `Fec.ValidateShape` | crates/tzap-core/src/fec.rs:266-276 | accepts exactly valid counts with equal, even shard sizes; otherwise the error of the counts, then an odd size, then unequal sizes |
| `Fec.CoefficientPoints` | crates/tzap-core/src/fec.rs:296-305 | the u16 casts keep the evaluation points, and the coefficient is always defined |
| `Fec.EncodeParity` | crates/tzap-core/src/fec.rs:19-46 | each parity shard is the Cauchy combination of the data shards, or the shape error |
| `Fec.KernelIsZero` | crates/tzap-core/src/fec.rs:72-101 | surviving identity rows plus the first needed Cauchy rows annihilate only the zero vector |
| `Fec.RowsIndependent` | crates/tzap-core/src/fec.rs:72-101 | the matrix repair selects is never singular, for any erasure pattern |
| `Fec.CollectData` | crates/tzap-core/src/fec.rs:72-86 | collects identity rows and shards of the surviving data in order, or the first size error |
| `Fec.CollectParity` | crates/tzap-core/src/fec.rs:87-99 | continues with the first surviving parity rows until the matrix is square, and looks at no shard after that |
| `Fec.SolveMissing` | crates/tzap-core/src/fec.rs:100-123 | inversion and recombination always succeed and give the only data that fits the surviving shards |
| `Fec.RepairData` | crates/tzap-core/src/fec.rs:48-123 | returns the specified error in the source's order of checks, or the unique data that agrees with every shard used; FecSingularMatrix is unreachable |
| `Fec.RecoverDataBytes` | crates/tzap-core/src/fec.rs:125-155 | the concatenation of the repaired shards whenever repair succeeds, on the fast path and on the repair path, and every error; complete data of one size is returned even where repair refuses the counts or an odd size |
| `Fec.RepairErrors` | crates/tzap-core/src/fec.rs:48-123 | with valid counts repair fails, in this order, on an odd size, on a missing shard among more than 1024, on a wrong size among the shards used, and on fewer survivors than data shards; on nothing else |
| `Fec.ErasedRestores` | crates/tzap-core/src/fec.rs:48-123 | what is left of a code word is restored by its data; repair fails on it only beyond 1024 data shards or for want of shards |
| `Fec.EncodeEraseRepair` | crates/tzap-core/src/fec.rs:19-123 | encode, erase any shards, repair: the shape error, or the original data if none of it is lost or at least D of D+P shards survive and D is at most 1024; else the resource limit or FecTooFewAvailableShards |
| `Fec.ParityExample` | crates/tzap-core/src/fec.rs:19-46 | the shard 01 00 with two parity shards gives 01 00 and 05 88, byte for byte |
| `Decimal.ValuePrint` | crates/tzap-core/src/entry_metadata.rs:2339-2347 | reading a printed number gives the number |
| `Decimal.PrintValue` | crates/tzap-core/src/entry_metadata.rs:2339-2347 | printing the value of a minimal decimal gives its text |
| `Decimal.ParseU64` | crates/tzap-core/src/entry_metadata.rs:2339-2347 | accepts exactly the minimal decimals that fit 64 bits, with their value |
| `Sparse.ParseSparsePayload` | crates/tzap-core/src/entry_metadata.rs:1163-1198 | the parsing loop computes the recursive specification of the map: count, extents, zero padding, stored bytes |
| `Sparse.ParsedLayout` | crates/tzap-core/src/entry_metadata.rs:1163-1198 | accepted extents are non-empty, sorted, non-adjacent, inside the logical size, and the payload is as long as the padded map plus their bytes |
| `SparseMap.ParsedMap` | crates/tzap-core/src/entry_metadata.rs:1163-1198 | whatever parses begins with the printed count and extents of its layout and zeros up to the map size, which is the multiple of 512 with less than 512 bytes to spare |
| `SparseMap.MapParses` | crates/tzap-core/src/entry_metadata.rs:1163-1198 | for every well-formed layout of at most 1048576 extents, its printed map with zeros up to that multiple, followed by that many bytes, parses to that layout |
| `SparseMap.OneMap` | crates/tzap-core/src/entry_metadata.rs:1163-1198 | two payloads with the same layout have the same map |
| `SparseMap.SmallestMap` | crates/tzap-core/src/entry_metadata.rs:1163-1198 | one extent of four bytes: six map bytes, 506 zeros and the four bytes parse to a map size of 512 |
| `Sparse.SparseStreamValidator.ObserveByte` | crates/tzap-core/src/entry_metadata.rs:575-639 | one byte moves the validator exactly one step, or fails with the step's error |
| `Sparse.SparseStreamValidator.ObserveValue` | crates/tzap-core/src/entry_metadata.rs:593-636 | one complete value is taken as the count, an offset or a length, and closes the map after the last; the trailing-lines branch is never reached |
| `Sparse.SparseStreamValidator.Observe` | crates/tzap-core/src/entry_metadata.rs:575-639 | observing a chunk is running its bytes one by one |
| `Sparse.SparseStreamValidator.Finalize` | crates/tzap-core/src/entry_metadata.rs:653-667 | finishing accepts only a complete map whose stored bytes have all arrived |
| `Sparse.RunConcat` | crates/tzap-core/src/entry_metadata.rs:575-639 | two chunks have the effect of their concatenation |
| `Sparse.NoTrailingLines` | crates/tzap-core/src/entry_metadata.rs:595-636 | in every reachable state a map whose values have run out is closed, so a further line cannot arrive |
| `Sparse.ValidatorAgreesWithParser` | crates/tzap-core/src/entry_metadata.rs:546-667 | for every payload and logical size the streaming validator accepts if and only if the one-shot parser does, with the same layout |
| `Sparse.ValidateChunks` | crates/tzap-core/src/entry_metadata.rs:546-667 | the same for every split of the payload into chunks |
| `Auxiliary.AuxiliaryStreamValidator.Observe` | crates/tzap-core/src/entry_metadata.rs:502-525 | a chunk is accepted if and only if the bytes so far are still admissible; count, hash, sparse state and retained bytes then all stand for the same bytes |
| `Auxiliary.AuxiliaryStreamValidator.Finalize` | crates/tzap-core/src/entry_metadata.rs:531-543 | accepts if and only if the whole payload is acceptable by the one-shot parser, the size, the hash and the retention cap |
| `Auxiliary.RefusedEarly` | crates/tzap-core/src/entry_metadata.rs:502-525 | whatever is refused while streaming could not have been accepted in the end |
| `Auxiliary.ValidateAuxiliary` | crates/tzap-core/src/entry_metadata.rs:484-544 | every split of a payload into chunks gets the verdict and the results of the whole payload |
| `ExtentQuery.QueryLinuxSparseExtents` | crates/tzap-cli/src/os_input.rs:88-129 | whatever the seeks answer, the run is the chain of extents they determine: an error exactly if it stops at a failure, extents exactly if it ends with bytes left out, dense if seeking for data is unsupported from the start or nothing is left out, and an error above 2^63-1; the extents are positive, ordered and inside the size, and against a consistent file they hold exactly the data bytes |
| `ExtentQuery.OneRun` | crates/tzap-cli/src/os_input.rs:96-124 | the answers of the seeks determine one chain of extents that cannot be continued |
| `ExtentQuery.StoppedIff` | crates/tzap-cli/src/os_input.rs:96-124 | a run goes on exactly if it has not finished, is not unsupported and meets no trouble, and then with one extent only |
| `SparseReader.SparseExtentReader.Take` | crates/tzap-cli/src/os_input.rs:402-424 | within an extent: file bytes are delivered exactly if the file has one at its position, else zeros to the end of the buffer; a byte after the report counts as late |
| `SparseReader.SparseExtentReader.Read` | crates/tzap-cli/src/os_input.rs:383-429 | fills the buffer or delivers all that is owed; against a fixed file the bytes are the zero-extended file restricted to the extents; after a failed seek the buffer is zeros, the whole remainder is reported and the file is where it was; after a report, file bytes are delivered if and only if the buffer is not empty and either an extent is under way and the file has a byte at its position, or the next extent's seek succeeds and the file has a byte at its start; one note at most; fails only when a read does |
| `SparseReader.SparseExtentReader.PadRemaining` | crates/tzap-cli/src/os_input.rs:431-461 | zero-fills, advances the cursor by exactly the bytes emitted and reports the whole shortfall at most once |
| `SparseReader.SparseExtentReader.ValidateFinished` | crates/tzap-cli/src/os_input.rs:362-379 | checks the identity once, when nothing is owed, and reports a change exactly if the check fails, without marking the archive incomplete |
| `SparseReader.DrainSparse` | crates/tzap-cli/src/os_input.rs:336-461 | every run over non-empty buffers of any sizes delivers exactly the sum of the extent lengths; a reported shortfall is the zeros substituted plus the bytes the file gave after the report, and it is exact if and only if no read after the report began where it would take a byte from the file; without one, a change is reported exactly if the identity check failed; the flag is set exactly when a shortfall is reported and the run gains at most one note; against a fixed file whose seeks succeed the report states the promised bytes past its end |
| `SparseReader.RunSparse` | crates/tzap-cli/src/os_input.rs:336-461 | for buffers of any sizes, empty ones too, any file and any failing seeks: each read begins where the bytes before it left the cursor, and once all is delivered the report states the zeros substituted if and only if no non-empty read after the report began where it would take a byte from the file |
| `SparseReader.LateIff` | crates/tzap-cli/src/os_input.rs:383-429 | over any sequence of reads, bytes arrive late if and only if some non-empty read after the report began where it would take one |
| `SparseReader.FailedSeekThenRead` | crates/tzap-cli/src/os_input.rs:386-410 | after a first failed seek, for any two non-empty buffers: the first is zeros and everything owed is reported; the next read delivers file bytes, so that fewer are substituted than were reported, if and only if it begins where it would take one; within the extent that is the byte at the old position |
| `SparseReader.StaleExample` | crates/tzap-cli/src/os_input.rs:386-410 | a concrete file, extent and buffers for which four bytes are reported lost and fewer substituted |
| `SparseReader.BoundaryExample` | crates/tzap-cli/src/os_input.rs:386-410 | a concrete file and two extents, the buffer ending exactly with the first: six bytes are reported lost, the second extent is then read and fewer are substituted |
| `DenseReader.IdentityCheckedReader.Read` | crates/tzap-cli/src/os_input.rs:481-518 | never zero bytes while any are owed and the buffer is not empty; the bytes are the zero-extended file for every buffer; an empty buffer is taken for the end of the file and the whole remainder reported, and the report stays right exactly unless the next byte is still in the file; after a report, file bytes are delivered if and only if the buffer is not empty, a byte is owed and the file has one at its position; one note at most |
| `DenseReader.IdentityCheckedReader.CheckIdentity` | crates/tzap-cli/src/os_input.rs:483-489 | a change is reported exactly if the check fails and nothing was reported before |
| `DenseReader.DrainDense` | crates/tzap-cli/src/os_input.rs:463-518 | every run over non-empty buffers delivers exactly the declared length, settles the account and gains at most one note; against a fixed file the report is declared length minus file size, and the flag is set exactly when that is positive |
| `DenseReader.RunDense` | crates/tzap-cli/src/os_input.rs:463-518 | for buffers of any sizes against a fixed file: once all is delivered the report states the zeros substituted if and only if no empty buffer was offered while the next byte was owed and still in the file |
| `DenseReader.AlarmExample` | crates/tzap-cli/src/os_input.rs:481-518 | a concrete file of one byte, an empty buffer and one of one byte: the byte is delivered and reported as lost |
| `Input.RunReport.RecordChanged` | crates/tzap-cli/src/os_input.rs:527-554 | sets the incomplete flag exactly when bytes were padded and adds each note once |
| `Pax.RecordLength` | crates/tzap-core/src/entry_metadata.rs:779-790 | the length loop terminates at the least self-describing length, or reports overflow |
| `Pax.LeastIsLeast` | crates/tzap-core/src/entry_metadata.rs:779-790 | no self-describing length is smaller, and there is at most one other: one larger and a power of ten |
| `Pax.RedundantLength` | crates/tzap-core/src/entry_metadata.rs:718-767 | when a power of ten describes itself so does the number before it |
| `Pax.EncodeCanonicalPax` | crates/tzap-core/src/entry_metadata.rs:769-800 | for records in byte order of their keys, succeeds exactly if there are any, all are valid and the encoding has at most 67108864 bytes, and returns their texts in that order; otherwise the error of the empty map, of an invalid record or of the size |
| `Pax.ParseCanonicalPax` | crates/tzap-core/src/entry_metadata.rs:718-767 | the cursor loop computes the recursive specification, and what it accepts has its keys in byte order, each pair differing first where the earlier ends or has the smaller byte |
| `Pax.ParsedIsText` | crates/tzap-core/src/entry_metadata.rs:718-767 | whatever is accepted is a concatenation of record texts with self-describing lengths, valid fields and strictly increasing keys |
| `Pax.TextParses` | crates/tzap-core/src/entry_metadata.rs:718-767 | every such concatenation is accepted, with its records |
| `Pax.AcceptedExactly` | crates/tzap-core/src/entry_metadata.rs:718-767 | a payload is accepted with these records if and only if it has 1 to 67108864 bytes, the keys ascend in byte order, keys are visible ASCII without an equals sign, values have no NUL, and it is their text under some self-describing lengths |
| `Pax.LessIff` | crates/tzap-core/src/entry_metadata.rs:759-761 | the comparison of keys is byte order: the first difference decides, and a proper prefix comes first |
| `Pax.EncodeParseRoundTrip` | crates/tzap-core/src/entry_metadata.rs:718-800 | parsing what was encoded gives the same record map |
| `Pax.ParseEncodeRoundTrip` | crates/tzap-core/src/entry_metadata.rs:718-800 | encoding what was parsed keeps the records, and keeps the bytes if and only if no declared length is a power of ten |
| `Pax.RedundantExample` | crates/tzap-core/src/entry_metadata.rs:718-800 | a concrete record accepted with length 10 and re-encoded with length 9 |
| `Pax.TwoRecords` | crates/tzap-core/src/entry_metadata.rs:718-800 | two concrete records: accepted and printed as these twelve bytes, and refused in the other order |
| `Timestamp.CanonicalPaxValue` | crates/tzap-core/src/entry_metadata.rs:320-350 | the printer with its zero-trimming loop computes the canonical text or the error |
| `Timestamp.CanonicalDefined` | crates/tzap-core/src/entry_metadata.rs:320-350 | a text exists for every timespec except seconds -1 with a fraction |
| `Timestamp.NoText` | crates/tzap-core/src/entry_metadata.rs:320-350 | which error is returned where no text exists |
| `Timestamp.PrintParse` | crates/tzap-core/src/entry_metadata.rs:2286-2318 | parsing the canonical text gives the timespec back |
| `Timestamp.ParsePrint` | crates/tzap-core/src/entry_metadata.rs:2286-2318 | printing what was parsed gives the text back, so each timespec has one accepted spelling |
| `Timestamp.DisplayAgrees` | crates/tzap-core/src/entry_metadata.rs:352-377 | the listing shows the canonical text wherever there is one |
| `Timestamp.SameInstant` | crates/tzap-core/src/entry_metadata.rs:2286-2318 | the accepted decimal denotes the instant of the timespec, in nanoseconds |
| `Timestamp.SystemTimeRoundTrip` | crates/tzap-core/src/entry_metadata.rs:100-157 | to host time and back is the identity if and only if the timespec is not (i64::MIN, 0); there the result is None |
| `Timestamp.FirstSecondIsLost` | crates/tzap-core/src/entry_metadata.rs:100-157 | the concrete timespec for which the round trip fails |
| `Timestamp.SystemTimeBack` | crates/tzap-core/src/entry_metadata.rs:100-157 | from host time and back is the identity wherever the conversion is defined |
| `Timestamp.SystemTimeIs` | crates/tzap-core/src/entry_metadata.rs:100-157 | the host time is the instant of the timespec: seconds times a billion plus nanoseconds |
| `Timestamp.QuarterBefore` | crates/tzap-core/src/entry_metadata.rs:320-350 | -1.25 and the timespec (-2, 750000000) are each other's parse and print |
| `Names.CanonicalBase64Encode` | crates/tzap-core/src/entry_metadata.rs:2132-2153 | the three-byte loop and its tail compute the symbols of the value's bits |
| `Names.CanonicalBase64Decode` | crates/tzap-core/src/entry_metadata.rs:2088-2130 | the four-symbol loop and its tail accept or reject as specified, including non-zero trailing bits |
| `Names.Base64RoundTrip` | crates/tzap-core/src/entry_metadata.rs:2088-2164 | decoding an encoding gives the value |
| `Names.Base64Canonical` | crates/tzap-core/src/entry_metadata.rs:2088-2164 | encoding what was decoded gives the text: each value has one accepted spelling |
| `Names.SymbolIs` | crates/tzap-core/src/entry_metadata.rs:2155-2164 | the 64 symbols are A-Z, a-z, 0-9, plus and slash, in that order |
| `Names.Base64Vectors` | crates/tzap-core/src/entry_metadata.rs:2132-2153 | concrete encodings of one, two and three bytes |
| `Names.EncodePercentName` | crates/tzap-core/src/entry_metadata.rs:2192-2206 | rejects the empty name and NUL, and escapes every other byte that is not plain |
| `Names.DecodePercentName` | crates/tzap-core/src/entry_metadata.rs:2166-2190 | decodes upper-case escapes and rejects escapes of plain bytes |
| `Names.PercentRoundTrip` | crates/tzap-core/src/entry_metadata.rs:2166-2206 | decoding an encoded name gives the name |
| `Names.PercentCanonical` | crates/tzap-core/src/entry_metadata.rs:2166-2206 | encoding what was decoded gives the text |
| `Names.EncodeByteIs` | crates/tzap-core/src/entry_metadata.rs:2192-2206 | a byte stands for itself if and only if it is visible ASCII other than percent and equals; any other is a percent sign and two upper-case hexadecimal digits |
| `Names.PercentExample` | crates/tzap-core/src/entry_metadata.rs:2192-2206 | a concrete name with a blank, escaped |
| `AclText.SplitJoin` | crates/tzap-core/src/entry_metadata.rs:1450-1515 | splitting joined parts that do not hold the separator gives the parts |
| `AclText.JoinSplit` | crates/tzap-core/src/entry_metadata.rs:1450-1515 | joining the split gives the text, and no part holds the separator |
| `AclText.ValidatePosixAclText` | crates/tzap-core/src/entry_metadata.rs:1450-1515 | accepts if and only if every tuple is well formed, keys strictly increase, the three base entries are present, and a mask is if anyone is named; otherwise the first error in the order of the checks; the duplicate-principal check never decides |
| `AclGrammar.ValidIffGrammatical` | crates/tzap-core/src/entry_metadata.rs:1450-1515 | a text is valid if and only if it is clean and the comma-joined print of proper entries in ascending order of kind, number and name, with the required ones present |
| `AclGrammar.ConvertsExactly` | crates/tzap-core/src/entry_metadata.rs:2245-2275 | a valid text converts if and only if every named entry has a 32-bit id, as its name or beside it; the attribute then holds exactly its entries with their tags, permission bits and ids, in kernel order |
| `Acl.LinuxPosixAclXattrToSchily` | crates/tzap-core/src/entry_metadata.rs:2210-2243 | converts exactly when the specification does, to the sorted text; otherwise the error of the framing, of the first bad entry, or of the text |
| `Acl.SchilyPosixAclToLinuxXattr` | crates/tzap-core/src/entry_metadata.rs:2245-2275 | converts exactly when the specification does, to entries in ascending order of tag and then id; otherwise the error of the text or of a principal without a number |
| `Acl.XattrInKernelOrder` | crates/tzap-core/src/entry_metadata.rs:2245-2275 | the attribute of a text holds exactly its entries, with tags ascending and ids ascending within a tag |
| `Acl.OneArrangement` | crates/tzap-core/src/entry_metadata.rs:2239-2240 | distinct keys leave only one sorted arrangement of the entries |
| `Acl.TextDefined` | crates/tzap-core/src/entry_metadata.rs:2210-2243 | an attribute converts if and only if it is framed, every entry is known, no principal repeats and the required entries are present |
| `Acl.BinaryRoundTrip` | crates/tzap-core/src/entry_metadata.rs:2210-2275 | attribute to text and back is a permutation of the entries ordered by tag and then id, and the identity if and only if the input was so ordered |
| `Acl.TextRoundTrip` | crates/tzap-core/src/entry_metadata.rs:2210-2275 | text to attribute and back is the identity on a valid text if and only if every named entry is a decimal id below 2^32-1 |
| `Acl.ComesBackNumeric` | crates/tzap-core/src/entry_metadata.rs:2245-2275 | a named user that stands for an id, but not as its plain decimal, is accepted and comes back as the plain decimal |
| `Acl.BobComesBackAsSeven` | crates/tzap-core/src/entry_metadata.rs:2245-2275 | the text with user:bob:rwx:7 converts and comes back with user:7:rwx |
| `Acl.PlusComesBackBare` | crates/tzap-core/src/entry_metadata.rs:2245-2275 | the text with user:+5:rwx converts and comes back with user:5:rwx |
| `AclExample.BothWays` | crates/tzap-core/src/entry_metadata.rs:2210-2275 | a text with an entry of every kind and the 52 bytes of its attribute convert into each other |
| `WindowsEa.ValidateWindowsEaStream` | crates/tzap-core/src/entry_metadata.rs:2011-2052 | accepts exactly the non-empty payloads that tile into well-formed records with zero-filled gaps |
| `WindowsEa.TiledIffWalks` | crates/tzap-core/src/entry_metadata.rs:2011-2052 | the walker's verdict and the existence of a tiling are equivalent |
| `WindowsEaText.AcceptedExactly` | crates/tzap-core/src/entry_metadata.rs:2011-2052 | a non-empty payload is accepted if and only if it is the bytes of a list of proper records, each printed field by field, of which only the last may announce no successor |
| `WindowsEaText.OneAttribute` | crates/tzap-core/src/entry_metadata.rs:2011-2052 | a concrete attribute of eleven bytes is accepted |
| `Padding.Buffer.AppendSuffixPadding` | crates/tzap-core/src/padding.rs:19-38 | appends the suffix of that length in place, or leaves the buffer alone and reports the error |
| `Padding.Buffer.TruncateSuffixPadding` | crates/tzap-core/src/padding.rs:84-93 | drops the padding in place exactly when it is valid |
| `Padding.DepadSuffix` | crates/tzap-core/src/padding.rs:40-82 | depadding inverts padding for every payload, in byte and wide form |
| `Padding.DepadImage` | crates/tzap-core/src/padding.rs:53-82 | everything accepted is a payload followed by a suffix |
| `Padding.DepadExact` | crates/tzap-core/src/padding.rs:40-82 | accepted with this payload if and only if it is this payload plus some suffix |
| `Padding.SuffixBytes` | crates/tzap-core/src/padding.rs:19-38 | byte by byte: zeros and the length up to 254; beyond, zeros, the length in four little-endian bytes and 255 |
| `Padding.DepadErrors` | crates/tzap-core/src/padding.rs:53-82 | which error an empty buffer, an impossible length and a non-zero padding byte get |
| `Padding.RoundUpToBlock` | crates/tzap-core/src/padding.rs:95-105 | the least positive multiple of the block size that is not smaller; fails exactly for block size zero or when that multiple, if it is not the value itself, overflows |
| `Aead.PadLenForAead` | crates/tzap-core/src/padding.rs:3-17 | the padding is between one byte and a block, and completes payload and tag to a multiple of the block size; it exists exactly when the block size is positive and that multiple fits |
| `Aead.SuffixPadForAead` | crates/tzap-core/src/padding.rs:3-17 | the padded plaintext, or the overflow error |
| `Aead.InfoInjective` | crates/tzap-core/src/crypto.rs:488-498 | prefix, domain, archive id, session id and counter can be read back from an info string |
| `Aead.DeriveSpells` | crates/tzap-core/src/crypto.rs:253-270 | derivation fails exactly for a domain above 65535 bytes; otherwise the nonce is expanded from the seed to 0, 12 or 24 bytes under an info string, and the associated data is one, that spell their own label and the domain, ids and counter of the object at fixed places |
| `Aead.SameAad` | crates/tzap-core/src/crypto.rs:268-270 | equal associated data means the same domain, archive, session and counter |
| `Aead.SameNonce` | crates/tzap-core/src/crypto.rs:253-266 | equal nonces under one seed and algorithm mean the same domain, archive, session and counter, unless the expansion maps the two different info strings to one output |
| `Aead.LabelsDiffer` | crates/tzap-core/src/crypto.rs:253-270 | the info strings of one object's nonce and associated data differ |
| `Aead.EncryptPaddedObject` | crates/tzap-core/src/crypto.rs:327-332 | the pipeline of derivation, padding and sealing, with its errors in order |
| `Aead.DecryptPaddedObject` | crates/tzap-core/src/crypto.rs:334-340 | the pipeline of derivation, opening and in-place depadding, with its errors in order |
| `Aead.EncryptSucceeds` | crates/tzap-core/src/crypto.rs:327-332 | encryption succeeds if and only if the domain has at most 65535 bytes, the block size is positive, the padded object fits a usize and the padding fits 32 bits |
| `Aead.ObjectRoundTrip` | crates/tzap-core/src/crypto.rs:327-340 | with ideal primitives decryption inverts encryption, and the object's length is a positive multiple of the block size |
| `Aead.DecryptAuthentic` | crates/tzap-core/src/crypto.rs:334-340 | whatever decrypts is a sealed payload with its suffix, under the derived nonce and associated data |
| `Aead.DecryptRefuses` | crates/tzap-core/src/crypto.rs:334-340 | what was not sealed under this context is refused as AeadFailure |
| `Aead.IdealExists` | crates/tzap-core/src/crypto.rs:327-340 | the laws assumed of the primitives can all hold together |
| `CloneGroups.ReadUpTo` | crates/tzap-core/src/macos_metadata.rs:1216-1225 | fills the buffer up to its limit or the end of the file, whatever the sizes of the reads |
| `CloneGroups.RestoredPartnersMatch` | crates/tzap-core/src/macos_metadata.rs:1194-1213 | chunk by chunk comparison decides whether the two files hold the same bytes |
| `CloneGroups.StagingDistinct` | crates/tzap-core/src/macos_metadata.rs:1306-1311 | no two members and attempts share a staging name |
| `CloneGroups.StagingExample` | crates/tzap-core/src/macos_metadata.rs:1306-1311 | a concrete staging name, byte for byte |
| `CloneGroups.CloneToStaging` | crates/tzap-core/src/macos_metadata.rs:1251-1270 | tries the thousand names in order while the answer is that the name is taken; the first other answer is the last call and the result; clones to a name that was free, or changes nothing; succeeds if no call fails and one of the names is free |
| `CloneGroups.CopyMetadataOntoClone` | crates/tzap-core/src/macos_metadata.rs:1323-1338 | on success the staged file has the destination's metadata; nothing else changes |
| `CloneGroups.CloneOver` | crates/tzap-core/src/macos_metadata.rs:1237-1291 | on success the destination's name has the source's extents and its own metadata, and nothing else moved; on failure every earlier name is untouched, no name is left behind unless an unlink failed, and the error is one that a call met or that the state explains; succeeds if no call fails, the bytes are equal and a staging name is free |
| `CloneGroups.RestoreGroup` | crates/tzap-core/src/macos_metadata.rs:1164-1175 | stops at the first failure with exactly the partners before it re-shared, and returns the error that explains it |
| `ClonePass.RestoreCloneGroups` | crates/tzap-core/src/macos_metadata.rs:1158-1186 | for every group map and every schedule of failing calls: each name keeps its bytes and metadata, only the partners counted are moved, no staging name is left unless an unlink failed, the states between the groups form a pass with these outcomes, each outcome stays true unless a later group re-shares one of its members, and each reason told comes from a call of its group or from the state the group had come to; if the first members existed or no staging name is left, every name has the extents of its origin by the outcomes; if nothing fails every group is shared and every name has the extents of its root by the group map alone |
| `ClonePass.TrueWhenTold` | crates/tzap-core/src/macos_metadata.rs:1158-1186 | for every group map each outcome, when it is made, counts exactly the partners that share with the first member, beside those that did already |
| `ClonePass.TrueAtTheEnd` | crates/tzap-core/src/macos_metadata.rs:1158-1186 | it is still true at the end if no partner of a later group is a member of its group, and also measured from the start of the pass if no partner of an earlier one is |
| `ClonePass.PassPlaces` | crates/tzap-core/src/macos_metadata.rs:1158-1186 | whatever fails, following the outcomes back from a name gives the name whose extents it has at the end, provided the first members cloned from existed at the start |
| `ClonePass.SharesIffOrigin` | crates/tzap-core/src/macos_metadata.rs:1158-1186 | two names share at the end if and only if their origins by the outcomes shared at the start |
| `ClonePass.TrueAtTheEndIff` | crates/tzap-core/src/macos_metadata.rs:1158-1186 | for every pass, whatever failed, was shared before or overlaps: the outcome of a group whose members existed is true at the end if and only if the origins by the outcomes say so |
| `ClonePass.OriginIsRoot` | crates/tzap-core/src/macos_metadata.rs:1158-1186 | when every group shares in full, the origin by the outcomes is the root by the group map alone |
| `ClonePass.FullGroupIff` | crates/tzap-core/src/macos_metadata.rs:1158-1186 | when nothing failed, a group's partners all share with its first member at the end if and only if their roots by the group map shared at the start |
| `ClonePass.OverlapVerdicts` | crates/tzap-core/src/macos_metadata.rs:1158-1186 | groups [x,y] and [z,y], or [x,y] and [z,x], leave the first outcome false at the end; [x,y] and [x,z] leave both true |
| `ClonePass.OverlapExample` | crates/tzap-core/src/macos_metadata.rs:1158-1186 | three concrete files and the groups [x,y] and [z,y]: both outcomes count two members, and y shares with z alone |
| `ClonePass.LinksSplit` | crates/tzap-core/src/macos_metadata.rs:1237-1291 | two names of one file stay one file if and only if neither was re-shared |
| `ClonePass.LinksExample` | crates/tzap-core/src/macos_metadata.rs:1237-1291 | two names of one concrete file and a group that re-shares one: they are two files afterwards |
| `ClonePass.ExactCount` | crates/tzap-core/src/macos_metadata.rs:1132-1143 | for distinct members that did not share before, partner j shares if and only if j is at most the reported count |

## Left out

- SHA-256, HMAC, HKDF, Argon2, the AEAD ciphers and zstd: library code, present only as parameters with laws.
- Unicode normalisation and UTF-8 decoding: external tables.
- Real system calls, and any interference by another process during the clone pass.
- Registry checks (allowed PAX keys, auxiliary kinds, profile names, algorithm ids, KDF bounds): each settled by reading one branch.
- NFSv4 ACL text, Darwin ACLs, Windows security descriptors and reparse buffers: field-by-field checks without an inverse.
- The capture report, metadata declarations and archive flags: lists of independent conditions.
- Command line, formatters, human-readable sizes, JSON output, trust certificates and the plaintext spool.
- Volume file naming, fuzz targets and benchmarks.
- The archive reader and writer, the wire format and the tar model.
- The Windows allocated-range query at the end of a sparse read, which can only add a change note.
- The wording of notes (a parameter of `Input.RunReport`) and the one-time caching of the field tables.
- Sparse.ValidatorAgreesWithParser: compares acceptance and layout; the two paths word some errors differently.
- Pax.ParseCanonicalPax: the error for a cursor that overflows `usize` is not modelled, because a payload in memory cannot reach it.
- SparseReader.DrainSparse: the extents are positive and ordered, as the query returns them; a zero-length extent would be read as the end of the file.
- ExtentQuery.QueryLinuxSparseExtents: SEEK_DATA is taken never to answer with an earlier offset, without which the query need not end.
- Aead.SameNonce: that the expansion keeps info strings apart is left to HKDF; no function onto 12 or 24 bytes can do so for all of them.
- ClonePass.RestoreCloneGroups: symbolic links and directories under a member's name appear only as calls that fail.
