# TSAE data structures in Dafny

A model of the causal bookkeeping of a Timestamped Anti-Entropy (TSAE)
replication node. There are three map-based structures over a fixed set of
participants:

- **TimestampVector** (`Vectors`): the node's summary vector. For each host
  it holds the timestamp of the last operation received from that host. It
  supports overwrite, the element-wise maximum merge (`updateMax`), the
  element-wise minimum merge (`mergeMin`), lookup, clone and equality.
- **TimestampMatrix** (`Matrices`): the acknowledgement matrix. For each host
  it holds that host's summary vector. It supports a row-wise maximum merge,
  row replacement, the "acknowledged by everyone" vector
  (`minTimestampVector`), clone and equality.
- **Log** (`Logs`): for each host, the operations received from it, in
  order. It supports ordered admission (`add`), the difference to ship to a
  peer (`listNewer`) and garbage collection against the acknowledgement
  matrix (`purgeLog`).

`Wrappers` holds the optional value that stands for Java's null lookup
result. `Timestamps` holds what these classes assume of a timestamp. `Scenarios`
holds worked examples on concrete values.

## Modelling decisions

- **Values, not objects.** Every structure is an immutable datatype wrapping
  a map. Each Java mutator is a function from the old value to the new one.
  A clone is therefore independent of its original by construction, and
  there is nothing to prove about heap frames.
- **Timestamps.** The Timestamp and Operation classes are not part of this
  model. A timestamp is the pair (host id, sequence number). A timestamp
  with a negative sequence number is the null timestamp ("nothing seen from
  this host yet"). The reserved constant is taken to be -1. `compare` is
  only applied to timestamps of the same host, and is the sign of the
  difference of their sequence numbers. An operation is a timestamp plus a
  payload the core never inspects, except to compare it for equality.
- **Equality of timestamps and operations.** `TimestampVector.equals`,
  `TimestampMatrix.equals` and `Log.equals` compare entries through
  `Timestamp.equals` and `Operation.equals`. Both are taken to compare their
  fields: host id and sequence number for a timestamp, and timestamp and
  payload for an operation. The model uses Dafny's structural equality on
  the `Timestamp` and `Operation` datatypes, so the `Equals` members and
  the clone-equals-original contracts rest on this assumption.
- **Enumeration order.** `minTimestampVector` folds the matrix rows in hash
  map order, and `listNewer` concatenates the hosts' operations in hash map
  order. That order is an explicit `order` parameter: a duplicate-free list
  of exactly the map's keys (`Matrices.Enumerates`). The lemmas state which
  results do not depend on it.
- **Well-formed vectors.** The constructor files each participant's null
  timestamp under that participant. `updateTimestamp` files a timestamp
  under its own host id, and `clone` writes every entry back through it.
  So every vector these classes build has each entry under its own host id
  (`Vectors.WellFormed`). `updateMax` writes the winning entry back through
  `updateTimestamp`, which lands on the key being visited only for such
  vectors.
- **`Log.add` follows the code.** Its comment asks for the immediate
  successor of the last stored operation. The code only asks for a strictly
  newer one, and the model follows the code.

## Model

| member | source | states |
|---|---|---|
| `Timestamps.NullTimestamp` | src/recipes_service/tsae/data_structures/TimestampVector.java:58-59 | The entry a fresh vector stores is a timestamp of that same host, and it is null. |
| `Timestamps.Compare` | src/recipes_service/tsae/data_structures/Log.java:84 | Comparison is three-valued: positive exactly when the first timestamp is newer, negative exactly when it is older. |
| `Timestamps.Later` | src/recipes_service/tsae/data_structures/TimestampVector.java:83-84 | The entry `updateMax` keeps is one of the two candidates and is at least as new as both. |
| `Timestamps.Earlier` | src/recipes_service/tsae/data_structures/TimestampVector.java:99-105 | The entry the documented minimum keeps is one of the two candidates and is no newer than either. |
| `Timestamps.CompareAntisymmetric` | src/recipes_service/tsae/data_structures/Log.java:109-110 | Comparing in the other direction flips the sign, so "newer than the peer's entry" and "the peer's entry is older" agree. |
| `Timestamps.CompareTransitive` | src/recipes_service/tsae/data_structures/Log.java:84 | Newer-than is transitive, which is what keeps an admitted sequence ordered. |
| `Timestamps.NullBeforeReal` | src/recipes_service/tsae/data_structures/TimestampVector.java:58 | The null timestamp compares below every non-null timestamp, and equal to another null carrying the reserved number. |
| `Timestamps.EarlierNullDominates` | src/recipes_service/tsae/data_structures/TimestampVector.java:99-105 | The minimum of two entries is null exactly when either entry is null. |
| `Vectors.Fresh` | src/recipes_service/tsae/data_structures/TimestampVector.java:54-61 | A fresh vector covers exactly the participants, is well-formed, and every entry is null. |
| `Vectors.Create` | src/recipes_service/tsae/data_structures/TimestampVector.java:54-61 | The constructor loop maps every listed participant, and nothing else, to its own null timestamp. |
| `Vectors.UpdateTimestamp` | src/recipes_service/tsae/data_structures/TimestampVector.java:68-71 | The timestamp's host now maps to it, that host joins the domain, and every other entry is unchanged. |
| `Vectors.GetLast` | src/recipes_service/tsae/data_structures/TimestampVector.java:95-97 | Lookup answers the stored entry for a known host and nothing for an unknown one. |
| `Vectors.UpdateMax` | src/recipes_service/tsae/data_structures/TimestampVector.java:78-88 | The domain is unchanged. Hosts the other vector lacks keep their entry. Every other entry becomes one of the two candidates and is at least as new as both. |
| `Vectors.MergeMin` | src/recipes_service/tsae/data_structures/TimestampVector.java:99-105 | The domain is unchanged. Every shared entry becomes one of the two candidates, is no newer than either, and is null exactly when either side is null. |
| `Vectors.MergeMinAsWritten` | src/recipes_service/tsae/data_structures/TimestampVector.java:106-108 | With the empty body, the receiver keeps every entry it had, whatever is merged in. |
| `Vectors.Clone` | src/recipes_service/tsae/data_structures/TimestampVector.java:110-119 | The copy covers the original's hosts and, for a well-formed original, equals it. |
| `Vectors.Equals` | src/recipes_service/tsae/data_structures/TimestampVector.java:121-127 | Equality holds exactly when both vectors have the same hosts and agree at each one. |
| `Vectors.GetLastAfterUpdate` | src/recipes_service/tsae/data_structures/TimestampVector.java:68-71 | After an overwrite, lookup of the written host yields the new timestamp and every other lookup is as before. |
| `Vectors.GetLastFresh` | src/recipes_service/tsae/data_structures/TimestampVector.java:54-61 | A fresh vector answers the null timestamp for each participant and nothing for any other host. |
| `Vectors.EqualsIffSameLookups` | src/recipes_service/tsae/data_structures/TimestampVector.java:121-127 | Two vectors are equal exactly when every lookup gives the same answer on both. |
| `Vectors.UpdateTimestampPreservesWellFormed` | src/recipes_service/tsae/data_structures/TimestampVector.java:68-71 | Overwriting keeps every entry under its own host id. |
| `Vectors.UpdateMaxPreservesWellFormed` | src/recipes_service/tsae/data_structures/TimestampVector.java:78-88 | The maximum merge keeps every entry under its own host id. |
| `Vectors.MergeMinPreservesWellFormed` | src/recipes_service/tsae/data_structures/TimestampVector.java:99-105 | The minimum merge keeps every entry under its own host id. |
| `Vectors.UpdateMaxIdempotent` | src/recipes_service/tsae/data_structures/TimestampVector.java:78-88 | Merging a vector into itself leaves it unchanged. |
| `Vectors.UpdateMaxAbsorbs` | src/recipes_service/tsae/data_structures/TimestampVector.java:78-88 | Merging the same vector twice has the effect of merging it once. |
| `Vectors.UpdateMaxCommutative` | src/recipes_service/tsae/data_structures/TimestampVector.java:78-88 | Over a common host set, the merge does not depend on which side receives it. |
| `Vectors.UpdateMaxIsLeastUpperBound` | src/recipes_service/tsae/data_structures/TimestampVector.java:73-88 | The merge is entry-wise above both inputs and below every common upper bound of them. |
| `Vectors.UpdateMaxNeverLowers` | src/recipes_service/tsae/data_structures/TimestampVector.java:78-88 | No entry ever decreases, whatever is merged in. |
| `Vectors.MergeMinIdempotent` | src/recipes_service/tsae/data_structures/TimestampVector.java:99-105 | Taking the minimum with itself leaves a vector unchanged. |
| `Vectors.MergeMinCommutative` | src/recipes_service/tsae/data_structures/TimestampVector.java:99-105 | Over a common host set, the minimum does not depend on which side receives it. |
| `Vectors.MergeMinIsGreatestLowerBound` | src/recipes_service/tsae/data_structures/TimestampVector.java:99-105 | The minimum is entry-wise below both inputs and above every common lower bound of them. |
| `Matrices.FreshMatrix` | src/recipes_service/tsae/data_structures/TimestampMatrix.java:39-44 | A fresh matrix has one row per participant, each over all participants, and every entry is null. |
| `Matrices.Create` | src/recipes_service/tsae/data_structures/TimestampMatrix.java:39-44 | The constructor loop gives every listed participant a fresh all-null vector over the whole list, and the matrix is square. |
| `Matrices.GetTimestampVector` | src/recipes_service/tsae/data_structures/TimestampMatrix.java:50-54 | Lookup answers the stored row for a known host and nothing for an unknown one. |
| `Matrices.UpdateMax` | src/recipes_service/tsae/data_structures/TimestampMatrix.java:60-66 | The row set is unchanged, and each row becomes its vector maximum with the other matrix's row of the same host. |
| `Matrices.Update` | src/recipes_service/tsae/data_structures/TimestampMatrix.java:73-75 | The given host's row becomes the given vector, and every other row is unchanged. |
| `Matrices.FoldMin` | src/recipes_service/tsae/data_structures/TimestampMatrix.java:88-91 | Folding the minimum over further rows keeps the hosts of the starting vector. |
| `Matrices.MinTimestampVector` | src/recipes_service/tsae/data_structures/TimestampMatrix.java:82-93 | On a non-empty matrix, the acknowledged-by-all vector covers the hosts of the first row it visits. |
| `Matrices.Clone` | src/recipes_service/tsae/data_structures/TimestampMatrix.java:98-107 | The copy has the same hosts, repeats every well-formed row, and equals a square original. |
| `Matrices.Equals` | src/recipes_service/tsae/data_structures/TimestampMatrix.java:112-121 | Equality holds exactly when both matrices have the same hosts and the same row at each one. |
| `Matrices.GetAfterUpdate` | src/recipes_service/tsae/data_structures/TimestampMatrix.java:73-75 | After a row replacement, the replaced host answers the new row and every other lookup is as before. |
| `Matrices.UpdatePreservesSquare` | src/recipes_service/tsae/data_structures/TimestampMatrix.java:73-75 | Replacing a row by a well-formed vector over the same hosts keeps the matrix square. |
| `Matrices.UpdateMaxPreservesSquare` | src/recipes_service/tsae/data_structures/TimestampMatrix.java:60-66 | Merging two square matrices over the same hosts yields a square matrix. |
| `Matrices.UpdateMaxIdempotent` | src/recipes_service/tsae/data_structures/TimestampMatrix.java:60-66 | Merging a square matrix into itself leaves it unchanged. |
| `Matrices.UpdateMaxIsUpperBound` | src/recipes_service/tsae/data_structures/TimestampMatrix.java:56-66 | Every row of the merge is entry-wise above the same row of both inputs. |
| `Matrices.FoldMinIsLowerBound` | src/recipes_service/tsae/data_structures/TimestampMatrix.java:88-91 | Each entry of the fold is no newer than the start and every folded row, and is taken from one of them. |
| `Matrices.FoldMinFromFirst` | src/recipes_service/tsae/data_structures/TimestampMatrix.java:86-91 | Folding the minimum over rows from the first one yields, for each host, the entry of one of the rows, no newer than any row's entry. |
| `Matrices.MinEntryFromRow` | src/recipes_service/tsae/data_structures/TimestampMatrix.java:82-93 | Each entry of the minimum vector is a visited row's entry and is no newer than any row's entry. |
| `Matrices.MinTimestampVectorIsRowMinimum` | src/recipes_service/tsae/data_structures/TimestampMatrix.java:77-93 | On a square matrix, each entry of the minimum vector is no newer than that entry in every row and equals it in some row. |
| `Matrices.MinEntryOrderIndependent` | src/recipes_service/tsae/data_structures/TimestampMatrix.java:85-91 | A single entry of the minimum vector is the same whichever order the rows are folded in. |
| `Matrices.MinTimestampVectorOrderIndependent` | src/recipes_service/tsae/data_structures/TimestampMatrix.java:85-91 | The minimum vector of a square matrix does not depend on the order the rows are folded in. |
| `Matrices.MinTimestampVectorNullDominates` | src/recipes_service/tsae/data_structures/TimestampMatrix.java:82-93 | If any row holds the null timestamp for a host, the minimum vector's entry for that host is null. |
| `Matrices.FoldMinAsWritten` | src/recipes_service/tsae/data_structures/TimestampMatrix.java:88-91 | With `mergeMin` as written, the fold returns its starting vector untouched, however many rows follow. |
| `Matrices.MinTimestampVectorAsWritten` | src/recipes_service/tsae/data_structures/TimestampMatrix.java:85-91 | With `mergeMin` as written, the result is simply the first row the enumeration yields, whatever the other rows hold. |
| `Logs.Empty` | src/recipes_service/tsae/data_structures/Log.java:56-61 | An empty log has an empty sequence for exactly the participants, and is valid. |
| `Logs.Create` | src/recipes_service/tsae/data_structures/Log.java:56-61 | The constructor loop gives every listed participant, and nothing else, an empty sequence. |
| `Logs.Add` | src/recipes_service/tsae/data_structures/Log.java:72-89 | An operation is admitted exactly when its host's sequence is missing or empty, or it is newer than the last one stored. If admitted, the host's sequence becomes the old one plus the operation. If refused, the log is unchanged. No other host's sequence changes. |
| `Logs.NewerThan` | src/recipes_service/tsae/data_structures/Log.java:107-112 | An operation survives the filter exactly when it was in the sequence and is newer than the given timestamp. |
| `Logs.ListNewerFrom` | src/recipes_service/tsae/data_structures/Log.java:102-115 | Over the hosts a given order visits, an operation is listed exactly when it is stored under a visited host the peer's vector knows and is newer than the peer's entry for that host. |
| `Logs.ListNewer` | src/recipes_service/tsae/data_structures/Log.java:100-117 | Over the log's own enumeration, which visits every host once, an operation is listed exactly when some host stores it and the peer's vector has an older entry for that host. |
| `Logs.Purge` | src/recipes_service/tsae/data_structures/Log.java:132-148 | The host set is unchanged. A host whose acknowledged entry is null keeps its sequence. Every other host keeps exactly its operations newer than the acknowledged entry. |
| `Logs.PurgeLog` | src/recipes_service/tsae/data_structures/Log.java:127-149 | Purging against the acknowledgement matrix keeps the log's host set. |
| `Logs.PurgeHost` | src/recipes_service/tsae/data_structures/Log.java:136-146 | The in-place remove-or-advance loop leaves exactly the operations newer than the acknowledged timestamp, in their original order. |
| `Logs.Equals` | src/recipes_service/tsae/data_structures/Log.java:151-157 | Equality holds exactly when both logs have the same hosts and the same sequence for each. |
| `Logs.AddPreservesValid` | src/recipes_service/tsae/data_structures/Log.java:63-89 | Admission keeps every host's sequence strictly increasing and made only of that host's operations. |
| `Logs.AddTwiceIsNoOp` | src/recipes_service/tsae/data_structures/Log.java:84-88 | Offering the same operation a second time is refused and changes nothing. |
| `Logs.AddRejectsStale` | src/recipes_service/tsae/data_structures/Log.java:80-88 | In a valid log, an operation no newer than some stored operation of its host is refused and the log is unchanged. |
| `Logs.NewerThanAll` | src/recipes_service/tsae/data_structures/Log.java:107-112 | When every operation is newer than the bound, the filter keeps the whole sequence. |
| `Logs.NewerThanSuffix` | src/recipes_service/tsae/data_structures/Log.java:138-146 | On an increasing sequence, the filter keeps a suffix, and everything before it is at or below the bound. |
| `Logs.ListNewerHostPart` | src/recipes_service/tsae/data_structures/Log.java:102-115 | The operations listed for one host are its stored operations newer than the peer's entry, in log order, and none when the host is not visited or the peer has no entry for it. |
| `Logs.ListNewerForHost` | src/recipes_service/tsae/data_structures/Log.java:100-117 | Visiting all of the log's hosts, the listing for each host is exactly what the peer has not seen, in log order, and nothing for a host the peer does not know. |
| `Logs.ListNewerAfterNullSendsAll` | src/recipes_service/tsae/data_structures/Log.java:104-112 | A peer holding the null timestamp for a host is sent every stored operation of that host. |
| `Logs.PurgeLeavesSuffix` | src/recipes_service/tsae/data_structures/Log.java:132-148 | In a valid log, purging drops a prefix of each host's sequence, all at or below the acknowledged entry, and keeps the rest. |
| `Logs.PurgePreservesValid` | src/recipes_service/tsae/data_structures/Log.java:127-149 | Purging keeps the log valid. |
| `Logs.PurgeIdempotent` | src/recipes_service/tsae/data_structures/Log.java:127-149 | Purging twice against the same acknowledgements is purging once. |
| `Logs.PurgeLogOrderIndependent` | src/recipes_service/tsae/data_structures/Log.java:130 | On a square acknowledgement matrix, the purge does not depend on the order the rows are folded in. |
| `Logs.PurgeLogRemovesExactlyAcknowledged` | src/recipes_service/tsae/data_structures/Log.java:119-149 | A non-null stored operation is removed exactly when every participant's row acknowledges its host at or beyond it. |
| `Scenarios.AddInOrderThenDuplicate` | src/recipes_service/tsae/data_structures/Log.java:72-89 | Seq 1 then seq 2 of one host are both admitted, in order. Offering seq 1 again afterwards is refused and changes nothing. |
| `Scenarios.ListNewerExample` | src/recipes_service/tsae/data_structures/Log.java:100-117 | The log {A: [1, 2], B: [1]} against {A: 1, B: null} lists A's seq 2 and B's seq 1, in either host order. |
| `Scenarios.MinTimestampVectorExample` | src/recipes_service/tsae/data_structures/TimestampMatrix.java:82-93 | The rows {A: 3, B: 1} and {A: 1, B: 2} have minimum {A: 1, B: 1}. |
| `Scenarios.MinTimestampVectorAsWrittenCounterexample` | src/recipes_service/tsae/data_structures/TimestampVector.java:106-108 | With the empty `mergeMin`, the same rows yield A's entry 3, which B's row has not acknowledged, and the result changes with the enumeration order. |
| `Scenarios.PurgeLogExample` | src/recipes_service/tsae/data_structures/Log.java:127-149 | Purging {A: [1, 2, 3]} when everyone has acknowledged A's seq 2 leaves [3]. |

## Left out

- Locking (`synchronized`, the concurrent hash map, the synchronised Java
  `Vector`): once the locks are erased every operation is sequential, so
  each is modelled as one atomic step.
- Trace logging: it is fire-and-forget output with no effect on results.
- Serialization and the `toString` methods: they only format strings.
- Reference aliasing: `update` stores the caller's vector and
  `getTimestampVector` returns the live row. With value semantics no row is
  shared, so the independence of a clone holds by construction. The model
  folds the rows themselves where `minTimestampVector` folds their clones.
  That agrees with the source for well-formed rows, which are all the rows
  the classes build; a Java clone refiles the entries of any other row.
- Timestamp and Operation internals: those classes are not part of this
  model. Only the assumptions listed under "Modelling decisions" are used,
  including the value -1 for the reserved null sequence number.
- Exceptions become preconditions:
  - `minTimestampVector` on an empty matrix: the model requires a non-empty
    enumeration.
  - `TimestampMatrix.updateMax` against a matrix missing a row: the model
    requires the other matrix to have every row.
  - `purgeLog` when the minimum vector lacks a host of the log: the model
    requires every host of the log to be present.
- Vectors.UpdateMax: requires the other vector to be well-formed. For a
  vector whose entry sits under a different host id, the Java loop would
  write that entry under yet another key while still iterating. Every
  vector the three classes build is well-formed.
- Vectors.Clone: promises equality only for a well-formed original. For
  any other vector, the Java clone refiles each entry under its own host id.
- Vectors.MergeMin: the documentation does not say what happens to a host
  the other vector lacks. The model keeps the receiver's entry, as
  `updateMax` does.
- Matrices.MinTimestampVector: its contract only fixes the result's hosts.
  What the minimum means is stated in `Matrices.MinTimestampVectorIsRowMinimum`,
  `Matrices.MinTimestampVectorOrderIndependent` and
  `Matrices.MinTimestampVectorNullDominates`.
- Logs.PurgeLog: its contract only fixes the host set. What is removed is
  stated in `Logs.PurgeLogRemovesExactlyAcknowledged`, `Logs.PurgeLeavesSuffix`
  and `Logs.PurgeLogOrderIndependent`.
- `Log.listNewer` returns a fresh list and does not modify the log. That
  holds by construction, since the model's function returns a new sequence.

## Findings

| source | as written | input that shows it | evidently intended | confidence | as-written member | corrected member |
|---|---|---|---|---|---|---|
| src/recipes_service/tsae/data_structures/TimestampVector.java:106-108 | `mergeMin` has an empty body, so `minTimestampVector` returns a copy of whichever row the hash map enumerates first. | Rows A: {A: 3, B: 1} and B: {A: 1, B: 2}. Enumerating A first yields {A: 3, B: 1}, which lets `purgeLog` discard A's operations 2 and 3 although B has not seen them. Enumerating B first yields {A: 1, B: 2}. | The element-wise minimum {A: 1, B: 1}, the same for every enumeration order. | not executed | `Scenarios.MinTimestampVectorAsWrittenCounterexample` | `Matrices.MinTimestampVectorIsRowMinimum` |

The corrected minimum is `Vectors.MergeMin`. `Matrices.MinTimestampVector`
and `Logs.PurgeLog` are built on it, and
`Matrices.MinTimestampVectorOrderIndependent` proves its result does not
depend on the enumeration order.
