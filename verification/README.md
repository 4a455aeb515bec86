# Verified model of the mnestic engine's temporal core

A Dafny model of the parts of mnestic, an embeddable Datalog database with time travel, that decide what
a query returns. It models:

* the key format, which stores tuples so that byte order is tuple order (`Memcmp*`, `Tuples`, `VectorOrder`, over
  `Bytes`, `Float64` and `Values`);
* the two time-travel scans that work on those keys by seeking only: the bitemporal one (`Bitemporal*` over
  `Store`) and the single-axis one (`SkipScan`), and how validities get into keys (`Validities`);
* the HTTP server's transaction leases, as a protocol over every interleaving (`TransactionTable`,
  `TransactionLeases`, `LeaseRuns`, `LeaseAuthority`) and as the server's code, where each locked section is one
  method and one step of the protocol (`LeaseServer`);
* the aggregation operators with an algebraic promise (`SumProd`, `Coalesce`, `MeetOps`);
* what the equality, ordering and string operators compute (`OperatorLaws`);
* the rewritings of expressions that must not change meaning: constant folding (`Expressions`), compilation to
  stack code (`Bytecodes`, `BytecodeEmit`, `BytecodeLimits`), key ranges extracted from filters (`Comparisons`,
  `Bounds`), and the lowering of Cypher `WHERE` (`Cypher`) with the way the engine then runs it: as filters
  (`CypherWhere`), on the rows a scan reads (`CypherScan`), and in any plan (`CypherPlans`).

Main results.

1. `BitemporalRead.ReadAsOf`: a read of a stored bitemporal relation under a key prefix, as of (V, T) or of all
   instants as of T, returns in key order exactly the rows under that prefix whose facts are believed, where belief
   looks at the whole relation; it terminates, and only a reserved transaction time under the prefix can make it
   fail.
2. `BitemporalLaws.ModesAgree` and `StoredReadStable`: the two modes of the scan determine one another, and rows
   recorded after T never change an answer at T.
3. `Tuples.KeyOrder` and `MemcmpDecode.DecodeTupleInverse`: encoded keys of one arity sort as their tuples do, no
   key is a prefix of another, and decoding inverts encoding in front of any remainder. Numbers are integers and
   all double bit patterns mixed.
4. `LeaseRuns.Conserved`, `EndedForGood`, `ReapedAfterIdle`, `OwnReply`: over all interleavings no transaction is
   lost, finished twice, reaped while in use, or answered with another caller's reply, exactly as long as the
   32-bit identifier drawn is free when it is inserted (`InsertSafeIff`). `LeaseAuthority.AcquireIff`, `FinishIff`,
   `EndingCause` and `SweepExact`: who gets a lease, who can end a transaction and how, and what a sweep leaves, exactly
   and in terms of the requests that began it.
5. `Comparisons.SoundIff` and `Bounds.FilteredRowScanned`: which constants make an extracted key range sound, and
   that narrowing a scan by sound ranges loses no row.
6. `BytecodeLimits.AgreesIff`: compiled code yields the evaluator's value exactly when evaluation does not fall
   through a conditional without a true clause, and the parser never builds such a conditional.
7. `Cypher.Lowering`, `CypherScan.WhereExact` and `NoRowLostIff`: the emitted `WHERE` expression is true exactly
   where three-valued logic says TRUE. What becomes of each stored row of a matched relation is given exactly: when
   the query fails, depending on whether the predicate is split on the join or put whole after a column bound later;
   when a row is never read because a test narrows the scan; and otherwise it is kept exactly if TRUE. Which
   predicates can lose a TRUE row is an if-and-only-if. `CypherPlans.AnyPlanSound` and `AnyPlanScanned` say what holds
   however joins split and reorder the filters.

Everything is proved for all inputs by the verifier; automatic induction is off in every lemma, recursive or not, so
that no proof rests on a hypothesis the verifier adds by itself. Nothing was executed.

Conventions. Bytes are integers below 256; strings are their UTF-8 bytes. A double is its 64-bit pattern;
`Float64.Numeric` gives its value in units of 2^-1074, and `Float64.TotalLess` is the totalOrder predicate of
section 5.10 of IEEE 754-2008. A store is a strictly sorted sequence of rows; the scans see it cut to a range.
Errors are `Option` or an outcome type; which message is reported is not modelled. A panic on malformed input is
an error value too. Clocks, the operating system's scheduling and the storage backend are parameters.

Properties that do not hold of the code as it stands are kept as such, with an input that shows it and the exact
condition under which they hold:

* A vector in a key does not sort by value: against other kinds (`VectorOrder.VectorTagOrder`), and against a vector
  of the same shape (`VectorElementsUnordered`; `VectorOrderIff`).
* A row carrying the terminal validity makes the single-axis scan seek itself again (`SkipScan.SeekPastRow`); which
  writes can make one (`Validities.CoercedTerminalIff`).
* A wrapped transaction identifier can evict a live transaction (`LeaseRuns.WrapBreaks`, `InsertSafeIff`).
* A product can be refused although it is zero (`SumProd.ZeroComesTooLate`, `RunExactIff`).
* Empty byte strings make `bit_and` and `bit_or` depend on operand order (`MeetOps.EmptyOperandOrder`,
  `OrderFreeIff`).
* Mixed integer and float interval bounds above 2^53 do not compare transitively (`Coalesce.EqualityNotTransitive`;
  `TransitiveIff`, `PreorderIff`).
* Folding can make an expression evaluate that raised before (`Expressions.FoldedMayEvaluateMore`; `FoldExactIff`).
* Ranges from `>=` with zero, with doubles two integers round to, or with integral doubles below the integers,
  ranges from `>` with the latter, and ranges from `<=` with negative zero lose rows (`Comparisons.SoundIff`).
* A `WHERE` that is one ordering test or `STARTS WITH` on a key column can lose rows of which it is TRUE
  (`CypherScan.NegativeZeroLost`, `Bounds.PrefixLosesIff`; `CypherScan.NoRowLostIff`).
* A comment in the Cypher translator says that a null operand never aborts. That is so of a test that is the whole
  `WHERE`, negated or not, over columns the relation atom binds: its null guards are filters of their own and come
  first. The id property is bound after the relation, so its filter is not split and a null does abort
  (`CypherScan.NullInTest`, `NullInBare` have both cases). One level down a connective evaluates a test together with
  its guards, and a null aborts (`CypherScan.NestedNullAborts`). `WhereExact` has the whole condition. The model follows
  the code.

## Model

| member | source | states |
|---|---|---|
| `Float64.RoundNatNearest` | cozo-core/src/data/value.rs:549-554 | `as f64` of an integer is the nearest double, ties to the even significand |
| `Float64.TotalLessBySign` | cozo-core/src/data/memcmp.rs:206-213 | the clauses of totalOrder, NaNs and zeros included, amount to comparing sign and magnitude |
| `Float64.FromIntMonotone` | cozo-core/src/data/memcmp.rs:129-147 | converting integers to doubles never inverts their order, and keeps them apart when either is below 2^53 in magnitude |
| `Float64.ToIntFromInt` | cozo-core/src/data/memcmp.rs:229-247 | integers strictly inside (-2^53, 2^53) survive the conversion to a double and back, so the exact-integer tag loses nothing |
| `MemcmpOrder.OrderEncodeI64Monotone` | cozo-core/src/data/memcmp.rs:198-204 | flipping the sign bit maps signed order to unsigned order and is undone by the decoder |
| `MemcmpOrder.OrderEncodeF64Monotone` | cozo-core/src/data/memcmp.rs:206-222 | the float transform maps totalOrder of all bit patterns to unsigned order, is injective and is undone by the decoder |
| `MemcmpOrder.EncodeNumOrder` | cozo-core/src/data/memcmp.rs:129-147 | byte order of encoded numbers is the engine's number order over all integers and all doubles mixed; distinct numbers differ before either ends |
| `MemcmpOrder.EncodeBytesOrder` | cozo-core/src/data/memcmp.rs:149-165 | grouping and marking keeps the order of byte strings of any lengths and makes them prefix-free |
| `MemcmpOrder.EncodeUuidOrder` | cozo-core/src/data/memcmp.rs:91-98 | the reordered fields of a UUID sort as the engine compares UUIDs |
| `MemcmpOrder.EncodeValidityOrder` | cozo-core/src/data/memcmp.rs:118-125 | validities sort newest first, assertion before retraction, and distinct ones split |
| `MemcmpOrder.ItemsOrder` | cozo-core/src/data/memcmp.rs:104-117 | zero-terminated sequences of values sort lexicographically by value and are prefix-free |
| `MemcmpOrder.EncodeOrder` | cozo-core/src/data/memcmp.rs:48-128 | byte order of encoded values is the value order, at any nesting depth, and no encoding is a prefix of another; vectors excepted |
| `MemcmpDecode.DecodeBytesInverse` | cozo-core/src/data/memcmp.rs:168-194 | decoding an encoded byte string in front of any remainder returns both |
| `MemcmpDecode.DecodeNumInverse` | cozo-core/src/data/memcmp.rs:229-257 | decoding an encoded number returns it, integer or float, and the remainder |
| `MemcmpDecode.DecodeUuidInverse` | cozo-core/src/data/memcmp.rs:286-295 | decoding an encoded UUID returns it and the remainder |
| `MemcmpDecode.DecodeVectorInverse` | cozo-core/src/data/memcmp.rs:340-367 | decoding an encoded vector returns it and the remainder |
| `MemcmpDecode.InsertAscending` | cozo-core/src/data/memcmp.rs:314-323 | rebuilding a set by insertion from its encoded order returns the set |
| `MemcmpDecode.DecodeInverse` | cozo-core/src/data/memcmp.rs:260-370 | decoding an encoded value of any modelled kind returns it and leaves the remainder untouched |
| `MemcmpDecode.DecodeTupleInverse` | cozo-core/src/data/tuple.rs:41-50 | a key decodes to exactly the tuple it was made from |
| `MemcmpCodec.KeyBuffer.WriteBytes` | cozo-core/src/data/memcmp.rs:149-165 | the group loop appends the encoding of the byte string to the buffer and nothing else |
| `MemcmpCodec.KeyBuffer.WriteNum` | cozo-core/src/data/memcmp.rs:129-147 | appends the encoding of the number |
| `MemcmpCodec.KeyBuffer.WriteValue` | cozo-core/src/data/memcmp.rs:48-128 | appends the encoding of the value, recursing into lists and sets |
| `MemcmpCodec.EncodeAsKey` | cozo-core/src/data/tuple.rs:29-39 | builds the key of a tuple: relation id, then the values |
| `MemcmpCodec.ReadBytes` | cozo-core/src/data/memcmp.rs:168-194 | the group loop computes the decoder's byte string and remainder, or fails where it fails |
| `MemcmpCodec.ReadValue` | cozo-core/src/data/memcmp.rs:260-370 | the recursive reader, with its loops over list elements, set elements and vector elements, computes the decoder and fails where it fails |
| `MemcmpCodec.ReadNum` | cozo-core/src/data/memcmp.rs:229-244 | the number reader computes the decoder on every input, malformed ones included |
| `MemcmpCodec.DecodeTupleFromKey` | cozo-core/src/data/tuple.rs:41-50 | the reading loop computes the decoded tuple |
| `Tuples.TupleOrder` | cozo-core/src/data/tuple.rs:29-39 | value sequences of one arity need no terminator: distinct ones split and keep their order |
| `Tuples.KeyOrder` | cozo-core/src/data/tuple.rs:29-39 | storage order of one relation's keys is tuple order |
| `Tuples.RowsOfKeyContiguous` | cozo-core/src/data/bitemporal.rs:14-21 | no key of another plain key sorts between two rows of one plain key |
| `Tuples.PrefixBelow` | cozo-core/src/runtime/relation.rs:805-820 | a range opened at an encoded key prefix starts no later than the plain key of any row in it |
| `VectorOrder.VectorTagOrder` | cozo-core/src/data/memcmp.rs:21-40 | against a value of another kind a vector's bytes agree with the value order exactly if that value is null, a boolean, a validity or the bottom |
| `VectorOrder.VectorElementsUnordered` | cozo-core/src/data/memcmp.rs:53-73 | two vectors of one shape whose byte order is the reverse of their value order |
| `VectorOrder.StoredAsPatterns` | cozo-core/src/data/memcmp.rs:53-73 | two vectors of one shape sort as bytes by the first element patterns that differ |
| `VectorOrder.VectorOrderIff` | cozo-core/src/data/value.rs:401-433 | two vectors of one kind and length sort by value exactly if, at the first differing patterns, the larger is no negative number; where both are zeros or both NaN, exactly if the remaining elements are ordered the same way |
| `VectorOrder.VectorShapeOrder` | cozo-core/src/data/value.rs:401-433 | vectors of different kinds or lengths are stored in the value order |
| `VectorOrder.NonNegativeOrder` | cozo-core/src/data/value.rs:401-433 | vectors of non-negative numbers are stored in the value order |
| `Store.SeekCut` | cozo-core/src/storage/mod.rs:219-240 | seeking splits a sorted range into the rows below the bound and the rows at or after it |
| `Store.HybridProbe.Probe` | cozo-core/src/data/bitemporal.rs:67-145 | for any far hints and any bounds that do not regress, the answer is that of a fresh seek, from cache, one step or a seek |
| `Bitemporal.RawOrder` | cozo-core/src/data/bitemporal.rs:280-286 | spliced bounds and keys compare as bytes the way their key, valid time, flag and transaction time compare |
| `BitemporalWalk.BetterWins` | cozo-core/src/data/bitemporal.rs:416-446 | the better of the best assertion and the best retraction of a group, ties to the assertion, is the record believed about it |
| `BitemporalWalk.Decided` | cozo-core/src/data/bitemporal.rs:288-310 | between the frontier and the advance bound the group's winner is the only possible answer |
| `BitemporalWalk.NothingWon` | cozo-core/src/data/bitemporal.rs:447-454 | when a group holds nothing at T, no record up to the landing is an answer |
| `BitemporalScan.ProbeFindsRecord` | cozo-core/src/data/bitemporal.rs:355-370 | the first row at or after a bound, if it parses, is the first record at or after it |
| `BitemporalScan.KeepPending` | cozo-core/src/data/bitemporal.rs:250-253 | a kept landing that the raised bound has not passed is still the first record at or after it |
| `BitemporalScan.FreshStep` | cozo-core/src/data/bitemporal.rs:405-413 | a positional landing re-aims at its group: invariant kept, bound strictly up, measure down |
| `BitemporalScan.RetractStep` | cozo-core/src/data/bitemporal.rs:379-404 | moving from a group's assert run to its retract run keeps the invariant with the best assertion held, raises the bound and lowers the measure |
| `BitemporalScan.DecideStep` | cozo-core/src/data/bitemporal.rs:288-310 | after a decision the answers so far grow by exactly the winner, or by nothing for a retraction in resolve-key mode; bound up, measure down |
| `BitemporalScan.FallStep` | cozo-core/src/data/bitemporal.rs:447-454 | falling through an empty group adds no answer, re-aims at what the landing names, raises the bound and lowers the measure |
| `BitemporalScan.EndStep` | cozo-core/src/data/bitemporal.rs:359-367 | at the end of the range the held assertion, if any, completes the answer |
| `BitemporalScan.BitemporalIter.constructor` | cozo-core/src/data/bitemporal.rs:260-278 | a new iterator over a well-formed range stands at its start with nothing emitted |
| `BitemporalScan.BitemporalIter.SetBound` | cozo-core/src/data/bitemporal.rs:280-286 | the bound becomes the spliced bytes of the position and is marked near |
| `BitemporalScan.BitemporalIter.Advance` | cozo-core/src/data/bitemporal.rs:290-310 | the bound passes the whole key, or in resolve-groups mode the whole group, and is marked far |
| `BitemporalScan.BitemporalIter.ClassifyFresh` | cozo-core/src/data/bitemporal.rs:335-348 | aims at the group a fresh landing names, or at V for a new key that starts later than V |
| `BitemporalScan.BitemporalIter.DirectedTurn` | cozo-core/src/data/bitemporal.rs:375-414 | one turn of a directed assert probe keeps the invariant, raises the bound strictly, lowers the measure and extends the answer by what it returns |
| `BitemporalScan.BitemporalIter.AssertTurn` | cozo-core/src/data/bitemporal.rs:372-415 | the same for every landing of the assert phase |
| `BitemporalScan.BitemporalIter.RetractTurn` | cozo-core/src/data/bitemporal.rs:416-457 | the same for every landing of the retract phase |
| `BitemporalScan.BitemporalIter.Fetch` | cozo-core/src/data/bitemporal.rs:355-370 | the landing, pending or probed, is the first record at or after the bound; bounds given to the probe never regress |
| `BitemporalScan.BitemporalIter.NextInner` | cozo-core/src/data/bitemporal.rs:350-459 | terminates; yields the next answer, the end, or the error of a corrupt key, without losing or repeating any |
| `BitemporalScan.BitemporalIter.Next` | cozo-core/src/data/bitemporal.rs:467-477 | an error is reported once and ends the iteration; without one, the rows yielded by the end are exactly the answer |
| `BitemporalScan.CollectAll` | cozo-core/src/data/bitemporal.rs:22-31 | draining the iterator yields the declarative answer of the mode, in key order, and cannot fail on a range whose keys parse |
| `BitemporalLaws.OneRowPerGroup` | cozo-core/src/data/bitemporal.rs:28-31 | resolve-groups answers hold exactly one row per key and valid time that has any record at T |
| `BitemporalLaws.KeyWinnerIsNewestGroup` | cozo-core/src/data/bitemporal.rs:23-27 | a key's answer at V is the winner of its newest group at or before V that holds a record at T, if that is an assertion |
| `BitemporalLaws.ModesAgree` | cozo-core/src/data/bitemporal.rs:22-31 | each key's first group row with vt at most V, kept if asserted, is the resolve-key answer |
| `BitemporalLaws.AsOfStable` | cozo-core/src/data/bitemporal.rs:312-348 | records with transaction time after T change neither kind of answer at T, for any V |
| `BitemporalLaws.StoredReadStable` | cozo-core/src/data/bitemporal.rs:312-348 | the same of two sets of stored rows |
| `BitemporalRead.ReadVldInverse` | cozo-core/src/data/bitemporal.rs:152-167 | the spliced reader undoes the validity encoding |
| `BitemporalRead.ReadVldAgrees` | cozo-core/src/data/bitemporal.rs:161-167 | on every ten bytes with the validity tag the spliced reader and the key decoder agree |
| `BitemporalRead.StoredFactParses` | cozo-core/src/data/bitemporal.rs:182-204 | a stored key parses to the fact it stores, and is rejected exactly if its transaction time is a reserved value |
| `BitemporalRead.StoredRange` | cozo-core/src/runtime/relation.rs:805-820 | any range of a bitemporal relation opened at a key prefix meets the scan's preconditions |
| `BitemporalRead.PrefixRange` | cozo-core/src/runtime/relation.rs:812-817 | the bytes from an encoded prefix up to the prefix and a bottom hold exactly the keys with that prefix whose next column is no bottom |
| `BitemporalRead.RangeOfPrefix` | cozo-core/src/runtime/relation.rs:805-820 | the rows of a table between the two seeks are exactly those whose facts lie under the prefix |
| `BitemporalRead.AnswerIsBelieved` | cozo-core/src/data/bitemporal.rs:22-31 | in either mode, a stored row is in the answer over its range exactly when its fact is believed, looking at the whole table |
| `BitemporalRead.ReadAsOf` | cozo-core/src/runtime/relation.rs:805-820 | the whole read, in either mode: in key order exactly the rows under the prefix that are believed over the whole table; it succeeds unless a key under the prefix holds a reserved transaction time |
| `SkipScan.KeyBefore` | cozo-core/src/data/tuple.rs:29-39 | single-axis keys sort by plain key, then newest first, then assertion first |
| `SkipScan.CheckKeyForValidity` | cozo-core/src/data/tuple.rs:60-88 | decoding, overwriting the last column and encoding again give the decision and the next seek, with the key's own relation id |
| `SkipScan.SeekPastRow` | cozo-core/src/data/tuple.rs:71-87 | the next seek is strictly past the row exactly if the row does not carry the terminal validity; otherwise it is the row itself |
| `Validities.DtToValidityIff` | cozo-core/src/data/functions.rs:2890-2906 | `dt_to_validity` takes exactly the doubles of microseconds strictly between -2^63 and 2^63, returns an integral one unchanged, and it is not its range check that stops the two ends |
| `Validities.NeverReserved` | cozo-core/src/data/functions.rs:3153-3184 | neither constructor makes a timestamp the engine reserves |
| `Validities.CoercedTerminalIff` | cozo-core/src/data/relation.rs:378-432 | a written column becomes the terminal validity exactly if it was one, or is a retraction at the earliest clock |
| `Validities.WrittenRowPassed` | cozo-core/src/data/tuple.rs:71-87 | whatever is written with values of the constructors, the next seek of the single-axis scan is strictly past the row |
| `Validities.ConstructedIsWritten` | cozo-core/src/data/relation.rs:378-432 | a constructed validity and the list form are written with the timestamp and flag asked for |
| `Validities.NamedForms` | cozo-core/src/data/relation.rs:380-387 | the two named forms stand for the current time with opposite flags |
| `Validities.TildeRetracts` | cozo-core/src/data/relation.rs:388-408 | a text and the same text after a tilde give one timestamp with opposite flags; a reserved one is refused |
| `Validities.DefaultAsserts` | cozo-core/src/data/functions.rs:2907-2913 | without a flag both constructors assert |
| `Validities.OtherFormsRefused` | cozo-core/src/data/relation.rs:410-432 | of other values exactly the lists of an integer and a boolean are taken, reserved timestamps excepted |
| `SkipScan.TurnAccounts` | cozo-core/src/storage/mem.rs:446-471 | the rows one turn skips hold exactly the answer it returns, or none |
| `SkipScan.StillResumable` | cozo-core/src/storage/mem.rs:446-471 | a turn moves forward, and rows of an unfinished key that were passed over are all newer than V |
| `SkipScan.SkipIterator.Next` | cozo-core/src/storage/mem.rs:446-471 | terminates; the tuples yielded are, key by key, the newest record at or before V where its timestamp holds an assertion |
| `LeaseServer.LeaseTable.TakeId` | cozo-bin/src/server.rs:639-643 | the first half of a start is the protocol's: identifiers are drawn in order, wrap at 2^32, and a read-only token draws none for a write |
| `LeaseServer.LeaseTable.Insert` | cozo-bin/src/server.rs:644-653 | the second half is the protocol's: it keeps the invariant exactly if the identifier is free, the owner may then take a lease, and no sweep within the timeout removes the entry |
| `LeaseServer.LeaseTable.AcquireTransaction` | cozo-bin/src/server.rs:597-632 | the four answers in their order of precedence; only a granted lease changes the table; one step of the protocol, keeping the invariant |
| `LeaseServer.LeaseTable.Release` | cozo-bin/src/server.rs:139-148 | dropping a lease decrements without underflow and restarts the timeout at zero, or does nothing for a missing entry; one step of the protocol, keeping the invariant |
| `LeaseServer.LeaseTable.Sweep` | cozo-bin/src/server.rs:505-518 | a sweep removes exactly the idle expired entries and hands over each of them once; one step of the protocol, keeping the invariant |
| `LeaseServer.LeaseTable.FinishQuery` | cozo-bin/src/server.rs:694-727 | the answers in order of precedence, including that an immutable token may abort but not commit; only a granted one removes the entry; one step of the protocol, keeping the invariant |
| `TransactionLeases.OneCaller` | cozo-bin/src/server.rs:657-687 | a transaction has at most one caller at a time: a single lease holder, or whoever ended it |
| `TransactionLeases.InsertKeeps` | cozo-bin/src/server.rs:644-653 | inserting under a free identifier keeps the invariant |
| `TransactionLeases.AcquireKeeps` | cozo-bin/src/server.rs:597-632 | acquiring keeps the invariant whatever the answer |
| `TransactionLeases.ReleaseKeeps` | cozo-bin/src/server.rs:139-148 | dropping a lease keeps the invariant |
| `TransactionLeases.SweepKeeps` | cozo-bin/src/server.rs:505-518 | a sweep with a clock read earlier keeps the invariant |
| `TransactionLeases.FinishKeeps` | cozo-bin/src/server.rs:694-727 | finishing keeps the invariant whatever the answer |
| `TransactionLeases.SendKeeps` | cozo-core/src/lib.rs:1154-1164 | a caller sends on empty channels |
| `TransactionLeases.ReceiveKeeps` | cozo-core/src/lib.rs:1165-1168 | the reply a caller receives is the one to its own request |
| `LeaseRuns.RunSafe` | cozo-bin/src/server.rs:500-740 | the invariant holds in every state of every interleaving in which inserted identifiers are free |
| `LeaseRuns.Conserved` | cozo-bin/src/server.rs:634-740 | every started transaction is in exactly one place: about to be inserted, in the table, or ended, and ended at most once |
| `LeaseRuns.LeasesExact` | cozo-bin/src/server.rs:110-148 | `in_flight` is the number of live leases, 0 or 1, and a leased transaction is in the table |
| `LeaseRuns.LeaseSurvives` | cozo-bin/src/server.rs:500-530 | no step but dropping it ends a lease or removes its transaction |
| `LeaseRuns.EndedForGood` | cozo-bin/src/server.rs:694-740 | an ended transaction stays ended, with no second ending, entry or lease, for the rest of the run |
| `LeaseRuns.ReapedAfterIdle` | cozo-bin/src/server.rs:500-530 | whenever a lease on a reaped transaction was live, that was at least the timeout before it was reaped |
| `LeaseRuns.OwnReply` | cozo-core/src/lib.rs:1145-1196 | every caller receives the reply to its own request, and the message of a waiting caller is never lost |
| `LeaseRuns.InsertSafeIff` | cozo-bin/src/server.rs:643-653 | an insertion keeps the invariant exactly if its identifier is free |
| `LeaseRuns.ShortRunsSafe` | cozo-bin/src/server.rs:643-653 | runs that start at most 2^32 transactions are safe without that assumption |
| `LeaseRuns.WrapBreaks` | cozo-bin/src/server.rs:643-653 | a run of 2^32 + 1 starts after which a leased transaction is nowhere and its identifier's count is zero |
| `LeaseAuthority.AcquireIff` | cozo-bin/src/server.rs:597-632 | over runs, a request gets a lease exactly if the transaction is open, the principal is the one that began it, its token may write if the transaction does, and no lease on it is live; else nothing changes |
| `LeaseAuthority.AnswersAre` | cozo-bin/src/server.rs:597-727 | the answers to acquiring and finishing, in their order, in terms of who began the transaction and which leases are live |
| `LeaseAuthority.LeaseHolder` | cozo-bin/src/server.rs:606-614 | every live lease was given out on request of the principal that began its transaction, with a token that may write if it writes |
| `LeaseAuthority.FinishIff` | cozo-bin/src/server.rs:700-732 | a finish ends the transaction exactly for the principal that began it, with no lease live, a read-only token only aborting a writing one; it asks for an abort exactly if the request says so |
| `LeaseAuthority.EndingCause` | cozo-bin/src/server.rs:505-732 | every commit was asked for by the principal that began the transaction, with a token that may write if it writes; every abort by that principal; any other ending is a sweep's |
| `LeaseAuthority.SweepExact` | cozo-bin/src/server.rs:505-518 | a sweep leaves exactly the open transactions with a live lease or used within the timeout, and reaps each other |
| `SumProd.AggrIntSumProd.Set` | cozo-core/src/data/aggr.rs:970-989 | the checked loops compute the row's product and the new sum, and leave the sum alone on an error |
| `SumProd.SumOfProducts` | cozo-core/src/data/aggr.rs:964-994 | feeding a group's rows to the aggregate computes the checked fold over them |
| `SumProd.SumProdExact` | cozo-core/src/data/aggr.rs:942-994 | with factors of at least 1 a run returns the mathematical sum of products if it fits in 64 bits and errors exactly if it does not |
| `SumProd.RunExactIff` | cozo-core/src/data/aggr.rs:970-989 | with any integers a run succeeds exactly if all partial products and sums fit, and is then exact |
| `SumProd.ZeroComesTooLate` | cozo-core/src/data/aggr.rs:975-983 | a row refused although its product is zero |
| `Coalesce.CmpIsKey` | cozo-core/src/data/functions.rs:276-283 | on bounds that survive conversion to a double the comparison is the numeric one |
| `Coalesce.EqualityNotTransitive` | cozo-core/src/data/functions.rs:276-283 | three bounds on which the comparison is not transitive |
| `Coalesce.TransitiveIff` | cozo-core/src/data/functions.rs:276-283 | three bounds compare transitively exactly unless the first and last are integers, the greater before the smaller, that both become the float between them |
| `Coalesce.PreorderIff` | cozo-core/src/data/functions.rs:276-283 | the comparison is a total preorder on a set of bounds exactly if no two integers in it share a double that is in it as a float |
| `Coalesce.AggrIntervalCoalesce.Set` | cozo-core/src/data/aggr.rs:719-725 | a well-formed span is appended, anything else is refused |
| `Coalesce.AggrIntervalCoalesce.Get` | cozo-core/src/data/aggr.rs:727-752 | the merging loop over the sorted spans computes the coalesced list |
| `Coalesce.ToIntervalIff` | cozo-core/src/data/functions.rs:289-313 | a value is taken in as a span exactly if it is the list of its two bounds, neither a NaN, the first not after the second |
| `Coalesce.SortSorts` | cozo-core/src/data/aggr.rs:731-733 | sorting permutes the spans into the order of their places on any line that fits the comparison |
| `Coalesce.CoalesceCovers` | cozo-core/src/data/aggr.rs:708-753 | on any such line the output covers exactly the input's points, starts each span after the end of the one before, and uses input endpoints only |
| `Coalesce.CoalesceAnyOrder` | cozo-core/src/data/aggr.rs:727-752 | every order of the input gives an output at the same places |
| `Coalesce.PreorderFits` | cozo-core/src/data/functions.rs:276-283 | wherever the comparison is a total preorder there is such a line |
| `Coalesce.CoalescePreorder` | cozo-core/src/data/aggr.rs:708-753 | for all spans taken in whose bounds the comparison preorders, exact as doubles or not: the output contains the same bounds, its spans lie apart in order, with input endpoints |
| `Coalesce.CoalescePreorderAnyOrder` | cozo-core/src/data/aggr.rs:727-752 | for the same spans every order of the input gives outputs of equal bounds |
| `Coalesce.CoalesceNumeric` | cozo-core/src/data/aggr.rs:708-753 | with bounds that survive conversion to a double the output covers the same real numbers |
| `Coalesce.Aggregate` | cozo-core/src/data/aggr.rs:708-753 | the whole aggregate from values to a value: it fails exactly if some value is no interval; the intervals of the result lie apart in order and hold the same bounds, and for bounds exact as doubles the same real numbers, as those given |
| `MeetOps.AggrBool.Set` | cozo-core/src/data/aggr.rs:394-402 | the accumulator takes in a boolean and is left alone by anything else |
| `MeetOps.MeetAggrBool.Update` | cozo-core/src/data/aggr.rs:416-429 | the stored value becomes the combination, and the result is true exactly if it changed; an error exactly on a non-boolean |
| `MeetOps.BoolRun` | cozo-core/src/data/aggr.rs:382-469 | both forms fail exactly on an operand that is no boolean and else say whether all operands, or any operand, are true; at most one change is reported, and exactly if the value left its initial one |
| `MeetOps.AggrBits.Set` | cozo-core/src/data/aggr.rs:1433-1459 | the normal-form loop combines byte by byte, seeding from the first operand, and refuses other widths and what is no byte string |
| `MeetOps.MeetAggrBits.Update` | cozo-core/src/data/aggr.rs:1472-1504 | the stored value becomes the combination, and the result is true exactly if it changed; an error on another width and on what is no byte string |
| `MeetOps.MeetRun` | cozo-core/src/data/aggr.rs:1426-1505 | the meet operator and the normal form agree on every sequence of operands, errors included |
| `MeetOps.RunBit` | cozo-core/src/data/aggr.rs:1447-1572 | a bit of the result of a run over one width is set exactly if it is set in every operand, or in some operand |
| `MeetOps.BitRun` | cozo-core/src/data/aggr.rs:1426-1580 | the same from values to a value |
| `MeetOps.AnyOrder` | cozo-core/src/data/aggr.rs:1472-1504 | operands of one width give the same result in every order |
| `MeetOps.OrderFreeIff` | cozo-core/src/data/aggr.rs:1461-1505 | operands may be taken in any order exactly unless an empty one is mixed with operands of a single other width |
| `MeetOps.EmptyOperandOrder` | cozo-core/src/data/aggr.rs:1461-1505 | two orders of two operands, one accepted and one refused |
| `MeetOps.ChangesBounded` | cozo-core/src/data/aggr.rs:1488-1497 | any run reports at most 1 + 8w changes, w the width of its first operand that is not empty |
| `OperatorLaws.Trichotomy` | cozo-core/src/data/functions.rs:235-380 | of two comparable values exactly one of less, equal and greater holds, a mixed pair with a NaN excepted, and the weak orderings are what that makes them |
| `OperatorLaws.EqualityTotal` | cozo-core/src/data/functions.rs:235-242 | equality never fails, is symmetric, keeps kinds apart, and inequality is its complement |
| `OperatorLaws.EqualStoredAlike` | cozo-core/src/data/functions.rs:240 | but for an integer against a float, two values are equal exactly if they are stored as the same bytes |
| `OperatorLaws.MixedEqual` | cozo-core/src/data/functions.rs:238-239 | an integer equals a float exactly if its conversion has that value |
| `OperatorLaws.NaNUnordered` | cozo-core/src/data/functions.rs:238-239 | nothing holds between an integer and a NaN |
| `OperatorLaws.TestTrichotomy` | cozo-core/src/cypher/translate.rs:854-861 | the same of the tests of a WHERE |
| `OperatorLaws.ComparableIff` | cozo-core/src/data/functions.rs:53-74 | which kinds can be compared |
| `OperatorLaws.TestBytesIs` | cozo-core/src/data/functions.rs:1311-1380 | the three string tests are the existence of a decomposition |
| `OperatorLaws.StringTestIs` | cozo-core/src/data/functions.rs:1311-1380 | which kinds they take |
| `OperatorLaws.ReadIsSet` | cozo-core/src/data/memcmp.rs:314-323 | what is read as a set is ascending and holds exactly what was read, in whatever order it was stored |
| `Expressions.RewriteInPlace` | cozo-core/src/data/expr.rs:412-447 | rewriting the arguments one by one and then the node computes the folded expression |
| `Expressions.FoldPreserves` | cozo-core/src/data/expr.rs:412-447 | wherever an expression evaluates, folding succeeds and the folded expression has the same value |
| `Expressions.FoldExact` | cozo-core/src/data/expr.rs:412-447 | without double negations the folded expression also raises where the original raises |
| `Expressions.DoubleNegationIff` | cozo-core/src/data/expr.rs:425-443 | dropping a double negation is exact unless the operand evaluates to something that is not a boolean |
| `Expressions.FoldExactIff` | cozo-core/src/data/expr.rs:412-447 | a whole folded expression has the original's outcome on a row exactly unless it evaluates and a dropped double negation there skipped a check |
| `Expressions.FoldFailsIff` | cozo-core/src/data/expr.rs:412-447 | folding fails exactly if some part built from constants raises, and turns exactly the column-free expressions into constants |
| `Expressions.FoldedMayEvaluateMore` | cozo-core/src/data/expr.rs:425-443 | an expression that raises and whose folded form does not |
| `Expressions.FoldNormal` | cozo-core/src/data/expr.rs:412-447 | a folded expression holds no application of constants only and no double negation |
| `Expressions.NormalFixed` | cozo-core/src/data/expr.rs:412-447 | folding leaves such an expression alone |
| `Bytecodes.EvalBytecode` | cozo-core/src/data/expr.rs:85-147 | the interpreter loop terminates on forward-jumping code with the outcome of the machine's step relation |
| `Bytecodes.Runs` | cozo-core/src/data/expr.rs:476-521 | compiled code placed anywhere in a program pushes the expression's value onto any stack, or raises, as evaluation does |
| `BytecodeEmit.Collector.Emit` | cozo-core/src/parse/expr.rs:58-113 | appending code and filling in jump targets afterwards produces the compiled code, and fails exactly on an unknown function |
| `BytecodeEmit.Collector.EmitClauses` | cozo-core/src/parse/expr.rs:79-108 | the backpatched code of a conditional is the compiled one |
| `BytecodeEmit.CompiledForward` | cozo-core/src/parse/expr.rs:79-108 | compiled code only jumps forward |
| `BytecodeEmit.CompileAndRun` | cozo-core/src/data/expr.rs:85-147 | compiling and running terminates with the machine's outcome on the compiled code |
| `BytecodeLimits.AgreesIff` | cozo-core/src/data/expr.rs:504-516 | a value the machine returns is the evaluator's; where the evaluator has a value the machine returns it exactly unless a conditional falls through |
| `BytecodeLimits.FallingCond` | cozo-core/src/data/expr.rs:504-516 | a conditional that evaluates to null and on which the machine has nothing to return |
| `BytecodeLimits.ParsedClosed` | cozo-core/src/parse/expr.rs:313-380 | every conditional that `cond` or `if` is parsed to ends with a catch-all clause |
| `BytecodeLimits.CondMeans` | cozo-core/src/parse/expr.rs:313-355 | `cond` has the value at its first true condition, else null; an odd last argument is no default, reaching it is an error |
| `BytecodeLimits.IfMeans` | cozo-core/src/parse/expr.rs:356-380 | `if` evaluates one of its branches, the second being null if it is not given |
| `BytecodeLimits.ParsedAgrees` | cozo-core/src/parse/expr.rs:313-380 | on such expressions the machine and the evaluator agree on every tuple, value or error |
| `Numbers.BackAndForth` | cozo-core/src/data/value.rs:523-534 | an integral double converted to an integer and back is itself, up to negative zero and saturation |
| `Comparisons.SoundIff` | cozo-core/src/data/expr.rs:522-577 | the range extracted from a comparison with a constant contains every value that passes it exactly for the constants listed |
| `Comparisons.PlainSound` | cozo-core/src/data/expr.rs:522-577 | between numbers below 2^53 in magnitude, negative zero and NaN excepted, every extracted range is sound |
| `Comparisons.PlainExact` | cozo-core/src/data/expr.rs:522-577 | between such numbers a range holds exactly the values on the constant's side and those equal to it |
| `Comparisons.Asymmetric` | cozo-core/src/data/value.rs:142-174 | the order of values is asymmetric for every kind of value |
| `Bounds.ComputeBounds` | cozo-core/src/data/expr.rs:660-677 | the nested loops compute, column by column, the merge of the filters' ranges, and fail exactly if some filter does |
| `Bounds.PrefixLosesIff` | cozo-core/src/data/expr.rs:578-601 | the range of a string prefix contains a string with that prefix exactly unless it goes on after the prefix and the largest character |
| `Bounds.MergeKeeps` | cozo-core/src/data/expr.rs:686-700 | a value in two ranges is in their merge; ranges that exclude each other contain no common value |
| `Bounds.MergeExact` | cozo-core/src/data/expr.rs:686-700 | a value other than the bottom is in the merge of two ranges exactly if it is in both |
| `Bounds.ColumnWithin` | cozo-core/src/data/expr.rs:660-677 | if the filters that bound a column are true of a row and their ranges reach it, the column lies in the merged range |
| `Bounds.KeyInScanRange` | cozo-core/src/runtime/relation.rs:843-863 | keys whose columns lie in the ranges lie in the scanned byte range |
| `Bounds.FilteredRowScanned` | cozo-core/src/query/ra.rs:1737-1751 | a row of which the bounding filters are true, with ranges that reach it, is in the byte range scanned instead of the whole prefix |
| `Cypher.EvalGuarded` | cozo-core/src/cypher/translate.rs:854-867 | a test guarded by null checks is false on a null operand and raises whenever the test itself raises |
| `Cypher.Lowering` | cozo-core/src/cypher/translate.rs:847-937 | the emitted expressions are true exactly where three-valued logic gives TRUE, respectively FALSE, and raise exactly where an operator in them raises |
| `Cypher.EvaluatesIff` | cozo-core/src/cypher/translate.rs:847-937 | evaluated as one expression, the emitted one evaluates exactly when no operator meets operands it raises on |
| `Cypher.SafeNeverRaises` | cozo-core/src/cypher/translate.rs:854-886 | predicates built from equality and null tests never raise |
| `CypherWhere.FilterRow` | cozo-core/src/query/ra.rs:1121-1140 | the loop over compiled filters stops at the first that is false, and fails at the first that does not give a boolean |
| `CypherWhere.PlaceParts` | cozo-core/src/query/ra.rs:593-640 | the loop over the parts of a filter hands those without columns to the unit side and the others to the relation, each in order |
| `CypherWhere.EmittedFolds` | cozo-core/src/query/logical.rs:217-221 | folding an emitted expression fails exactly if a test or bare value of literals alone raises |
| `CypherWhere.PartsExact` | cozo-core/src/query/ra.rs:593-640 | the parts of a folded emitted expression fail the query on an exact condition and else decide the row as the predicate's truth does |
| `CypherWhere.WholeExact` | cozo-core/src/query/ra.rs:489-504 | as one filter after a unification, the folded expression fails the query exactly if an operator raises and else decides the row |
| `CypherScan.MatchRow` | cozo-core/src/query/ra.rs:1697-1790 | folding, placing, narrowing the scan, compiling and running the parts terminates with the outcome of the row |
| `CypherScan.WindowIsByteRange` | cozo-core/src/runtime/relation.rs:843-863 | the window of key tuples is exactly the byte range from the lower bounds to the upper bounds and a bottom |
| `CypherScan.PropertyIsColumn` | cozo-core/src/cypher/translate.rs:288-293 | reading the id property is reading the column the node is bound to |
| `CypherScan.SplitWindow` | cozo-core/src/query/ra.rs:1737-1751 | a split predicate narrows the scan exactly if it is one test, not negated, that ties a key column to a constant, and then by that test's range |
| `CypherScan.WhereExact` | cozo-core/src/cypher/translate.rs:159-163 | the outcome of every stored row: query failure, row not read, kept exactly if TRUE, dropped exactly if not |
| `CypherScan.OutsideIs` | cozo-core/src/runtime/relation.rs:843-863 | which keys are not read: those below a lower bound after nulls only, those above an upper bound on the first key column only |
| `CypherScan.NoRowLostIff` | cozo-core/src/query/ra.rs:1737-1751 | some row of which a predicate is TRUE is lost exactly if it ties a key column by an unsound constant, from below or on the first key column, or by a prefix on the first |
| `CypherScan.NullInTest` | cozo-core/src/cypher/translate/tests.rs:342-368 | a null operand of the only test drops the row; with a column bound after the relation it fails the query if the test raises on null |
| `CypherScan.NullInBare` | cozo-core/src/cypher/translate.rs:888-891 | a null bare column drops the row, except that negated and bound after the relation it fails the query |
| `CypherScan.NestedNullAborts` | cozo-core/src/cypher/translate.rs:847-867 | an ordering test of a null column below AND or OR fails the query, also where the predicate is TRUE |
| `CypherScan.SafeDecides` | cozo-core/src/cypher/translate.rs:854-886 | predicates built from equality and null tests never fail the query, lose no row, and keep exactly the TRUE rows |
| `CypherScan.NegativeZeroLost` | cozo-core/src/data/expr.rs:527-539 | a row of which `a >= 0` is TRUE and which is never read |
| `CypherScan.OtherKindSkipped` | cozo-core/src/query/ra.rs:1737-1751 | a boolean below the range of `a > 5` is not read, where the filter would have failed the query |
| `CypherPlans.AnyPlanSound` | cozo-core/src/query/ra.rs:593-640 | with the filter split to any depth and its parts run in any order, a row that is kept has the predicate TRUE and a row that the filters drop has not |
| `CypherPlans.AnyPlanScanned` | cozo-core/src/query/ra.rs:1697-1790 | a row of which the predicate is TRUE is in the byte range to which any of the parts narrow a scan, as long as the ranges of tests that can be filters reach its values |

## Left out

- Json and Regex values: they go through foreign serialisers.
- The value part of a row: rows carry it as bytes; decoding it and appending it to the key's tuple is not modelled.
- Storage engines, write paths and the overlay of uncommitted changes over stored rows: a store is a sorted sequence.
- Ranges that cut into the temporal axes of a key: `StoredRange` covers prefixes of the plain key columns.
- HTTP routing, authentication, and failures of a worker: the protocol has a worker that gives one reply per request.
- Panics while the table is locked, and process shutdown.
- Sorting in `interval_coalesce` on bounds that the comparison does not preorder: the library sort's result is then
  unspecified.
- Which error is reported, spans and messages.
- Expression text, the grammars, arithmetic and library operators: an operator is any total function of its arguments.
- Equality of vectors inside expressions is identity here, where the engine compares elements as floats.
- Cypher `IN`, arithmetic, aggregates and predicates in value position. `WhereExact` is for one `WHERE` over a
  pattern that reads one plain relation, without inline property constraints or a label column; for others, when the
  query fails depends on the plan, and `CypherPlans` has what holds of all.
- Vectors in keys and in the constants they are compared with: `WindowIsByteRange` and `NoRowLostIff` leave them out, as
  their bytes do not follow the value order.
- Scaling and rounding seconds to microseconds in `dt_to_validity`, and parsing timestamps: the results are parameters.
- The in-place update of an expression tree is a rewritten value: nothing in the engine shares the tree meanwhile.
- Query evaluation, planning, graph algorithms, full-text and vector search, backups, language bindings.
- The ULID codec and whole-month differences of dates: they would only add easier members.
