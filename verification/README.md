# A verified model of the DH-MPPJ private join protocol

The protocol joins the tables of several data sources. A source encrypts each uid, hashed to a point of
a group, and its value. The helper raises the hashed uid to its secret key, which gives a pseudonym,
blinds the values with an additively shared key, and shuffles all rows. The receiver groups rows by
pseudonym. Only for a uid that every source has do the shares cancel, so that the receiver can open
the values and output a row.

The repository's `IntersectSimple` says what the join is, and its end-to-end test compares the two. The
main theorem, `Protocol.Session.ProtocolRefinesJoin`, is that comparison for all tables, keys, random
draws, permutations and goroutine schedules, under one hypothesis, that different uids get different
grouping keys: a run that completes outputs the join of what is delivered of the tables, which is a
permutation of the plaintext join's rows if the values of the shared uids are delivered intact. When a
value is intact, when a run completes, and which draws prevent that, is stated exactly.
`EndToEnd.TestMPPJ` models the test. `Deployments.DeploymentRefinesJoin` carries the theorem over the
network, through the helper's server, the wire formats and the receiver's forwarding pool, for values of
every length.

| module | models |
|---|---|
| `Options`, `Permutations` | results that can fail; reordering, sums, counting |
| `Groups`, `Suites` | the group and the other primitives, as records of operations with laws |
| `ModelSuites`, `Examples`, `ExamplesOnWire` | a suite that meets the laws, and sessions that meet the hypotheses |
| `Octets`, `Padding`, `Embedding` | big-endian numbers, padding (section 6.3 of RFC 5652), strings as curve points |
| `ElGamal`, `Vectors` | encryption and its homomorphisms, chunked values |
| `Serialization`, `Messages` | the byte formats |
| `Tables` | plain tables, join tables, the plaintext join, the comparison |
| `DataSources`, `Helpers`, `Receivers`, `WorkerPools` | the three parties, with their worker pools |
| `Protocol`, `Completion`, `EndToEnd` | the refinement theorem, the draws that prevent completion, a whole run in memory |
| `HelperServers`, `Overlaps`, `Deliveries` | server sessions, those that overlap, when the server delivers |
| `ForwardPools`, `Deployments` | the forwarding pool, the theorem over the network |
| `GenData` | the generator of test tables |

`dafny verify dfyconfig.toml` checks everything.

## How to read it

* Randomness is a parameter of the specification functions, and drawn arbitrarily by the methods.
* `None` stands for an error return, a panic or an exit of the original; the contracts say exactly when.
* A worker pool is a loop whose guarded branches are the steps its goroutines can take, chosen in any
  order; a map is ranged over in any order. The server and the forwarding pool are step systems, and their
  theorems are about all runs.
* `NymInjective` is the hypothesis that the uids in play have different grouping keys. The key is not the
  pseudonym itself but the middle bytes of its x-coordinate (`mppj-go/encryption.go:385-387`).
* A value is intact if no chunk of it needs the 255th attempt of the search for a curve point
  (`mppj-go/encryption.go:353-360`) and, over the wire, it has fewer than 30 bytes. `Delivered` says what
  becomes of any value; shared uids are those that every table has.
* The laws assumed of the primitives are those of `Suite.Laws`: the axioms of an abelian group in which
  raising to `order` gives the identity; encodings of points that decode to the point, of 33 bytes
  starting with 2 or 3 except for the identity's single byte (section 2.3.3 of SEC 1 v2.0); no 33 bytes
  that start otherwise, or stand for the identity, decode; `ModSqrt` finds a square root if and only if
  there is one; a pair of field elements that meets the curve equation decodes to a point, which is
  encoded by that x and the parity of that y; derived keys have 16 bytes; the size of the field prime,
  which P-256 has. `ModelSuites.LawsHold` shows them consistent, for every b of the curve equation.

## What the proofs found

* Over the wire only the first ciphertext of a value is sent, so a value of 30 bytes, which
  `mppj-go/cmd/source/main.go:135` admits, is cut: the receiver gets a shorter value or panics
  (`Protocol.Session.LongValueCut`). If it completes, the output is then not the plaintext join
  (`Protocol.Session.JoinOverWireExactly`). The bound is 29 bytes, as `mppj-go/README.md:24` says.
* The 255th attempt of `NewMessageFromBytes` yields a point that decodes to another string of the same
  length (`Embedding.CarryChangesPayload`).
* A source that opens a second session before its first has ended can make the helper panic
  (`Overlaps.OverlapPanics`), and only overlapping sessions can (`Overlaps.OverlapPanicsExactly`,
  `HelperServers.Server.SafeWithoutOverlap`).
* In the forwarding pool a worker can be started between the release and the return of `wg.Wait`, against
  the rules of `sync.WaitGroup`, as soon as there are three workers
  (`ForwardPools.Forwarder.PanicsExactly`). Rows are never lost or sent twice.
* `EqualContents` decides equality exactly for a second table whose rows are all different and, if there
  are two columns or more, hold no `|` (`Tables.AcceptanceDecides`); other tables are accepted for tables
  with other rows. It also accepts tables over the first sources only (`Tables.SourcesAccepted`).
* `Convert` takes the table of a source that is not listed for one of the first source
  (`Helpers.UnlistedFedAsFirst`).
* `postprocess_tables` can lose rows exactly if a key is the new name of another
  (`GenData.ChoicesKeepRowsExactly`), as keys read from a file may be.
* An identity point in a payload of a shared uid makes the receiver panic, and for every row there are
  draws that hit it (`Completion.UnluckyDraw`); so does a uid without grouping key
  (`Completion.ZeroKeyHasNoNyms`). If uids have different keys and all slots are filled, then apart from
  values that are not delivered nothing else does in memory (`Completion.CompletesOnDraws`). Over the
  network the receiver also exits on an identity point in the pseudonym, the blinded key or the hint of
  any row, shared or not, for each of which there are such draws (`Completion.UnluckyNym`,
  `Completion.UnluckyKey`, `Completion.UnluckyHint`), and then nothing else does
  (`Deployments.DeploymentCompletesOnDraws`).
* The helper's conversion panics in every interleaving if the sources push more rows than `n_rows`
  announces (`Helpers.Helper.ConvertTablesStream`), so that no table is delivered
  (`Deliveries.ConvertsExactly`). If they push fewer, a PullRows call can
  (`HelperServers.Server.ZeroRowExactly`).
* Two shared uids with one grouping key are both missing from the output
  (`Completion.CollisionLosesRows`), and two unshared ones can make a complete group, which the receiver
  tries to open (`Completion.CollisionMakesGroup`), so that `NymInjective` is needed.
* `Prepare` ignores its key argument (`mppj-go/party_datasource.go:91-94`), and blocks for ever if a value
  does not embed.
* The table index is sealed as one byte, so that beyond 256 sources it comes back truncated
  (`Serialization.PayloadRoundTrip`), and the columns from 256 on are empty in every row of the output
  (`Receivers.LateColumnsStayEmpty`).

## Model

| member | source | states |
|---|---|---|
| `EndToEnd.TestMPPJ` | mppj-go/mppj_test.go:11-60 | the end-to-end test: for all inputs, passes if and only if the receiver completes and its table is accepted for the plaintext join; under `NymInjective`, if and only if the run completes and what is delivered of the tables is accepted, so if and only if it completes when the values of shared uids are intact |
| `EndToEnd.Run` | mppj-go/mppj_test.go:17-51 | Prepare, Convert and JoinTables in memory: for all inputs, when the helper has a table and the receiver completes on it; under `NymInjective`, completion in terms of tables, keys and draws, and the join of what is delivered as the result |
| `Protocol.Session.ProtocolRefinesJoin` | mppj-go/party_receiver.go:55-189 | under `NymInjective`, whatever the order of arrival, slots, groups and insertions, a completed run outputs the join of what is delivered of the tables, and a permutation of the rows of IntersectSimple if the values of shared uids are intact |
| `Deployments.DeploymentRefinesJoin` | mppj-go/cmd/receiver/main.go:67-144 | the same over the network, for values of every length and every run of the helper's server and of the forwarding pool; intact then also means fewer than 30 bytes |
| `Deployments.DeploymentCompletesExactly` | mppj-go/cmd/receiver/main.go:127-147 | from a served run of the helper alone, for every order of forwarding: all messages decode and the receiver completes if and only if no pseudonym, blinded key or hint of any row holds an identity point, every uid has a grouping key, and for shared uids the values are delivered and no sealed point is the identity |
| `Deployments.DeploymentCompletesOnDraws` | mppj-go/cmd/receiver/main.go:127-147 | the same as a condition on the draws of the helper: for every row those of its pseudonym, blinded key and hint, and for shared uids those of its sealed ciphertexts, avoid the identity |
| `Protocol.Session.JoinExactly` | mppj-go/mppj_test.go:48-58 | in memory and over the wire, for values that have points and no chunk that wraps around: what a completed run outputs is the plaintext join if and only if every value of a shared uid is intact |
| `Protocol.Session.JoinOverWireExactly` | mppj-go/api/messages.go:18 | over the wire, when no chunk of a shared uid needs the 255th attempt, a completed run outputs the plaintext join if and only if every value of a shared uid has fewer than 30 bytes |
| `Protocol.Session.JoinedIsJoin` | mppj-go/party_receiver.go:70-189 | any result the receiver can compute from rows that carry the tables is the join of what is delivered of them |
| `Protocol.Session.CompletesExactly` | mppj-go/party_receiver.go:80-148 | the receiver completes if and only if every uid has a grouping key, and for shared uids every value is delivered and no sealed point is the identity |
| `Completion.CompletesOnDraws` | mppj-go/party_helper.go:61-81 | the same as a condition on the draws: no re-randomization of a shared uid's ciphertexts hits the identity |
| `Tables.AcceptanceDecides` | mppj-go/table.go:146-172 | EqualContents decides equality of the rows, for a second table and every first one, if and only if the second table's rows are all different and, unless there is one column, hold no &#124; |
| `GenData.ChoicesKeepRowsExactly` | mppj-exps/gen_data.py:46-69 | for two or more tables with the same keys, every random choice keeps all row counts, and does all that the function is for, if and only if no key is the new name of another |
| `HelperServers.Server.SafeWithoutOverlap` | mppj-go/cmd/helper/main.go:81-130 | in every run whose sources do not overlap their own sessions, each open session's source is still expected, and no channel is closed twice or sent to after its close |
| `HelperServers.Server.PanicsExactly` | mppj-go/cmd/helper/main.go:89-127 | once incomingEncRows is closed, a channel panic can follow if and only if some session is still open |
| `Overlaps.OverlapPanicsExactly` | mppj-go/cmd/helper/main.go:81-130 | for every run that has not panicked: a channel panic can follow, with no further session opened while its source has one open, if and only if two sessions of one source are open, or one of a source that has finished another |
| `Deliveries.DeliversExactly` | mppj-go/cmd/helper/main.go:132-158 | a closed server whose table nobody has had can still send all of it if and only if the rows pushed are as many as the slots |
| `ForwardPools.Forwarder.ClosedAfterAllRows` | mppj-go/cmd/receiver/main.go:127-142 | in every interleaving inRows is closed at most once, after every downloaded row was sent exactly once, and nothing is sent later |
| `ForwardPools.Forwarder.PanicsExactly` | mppj-go/cmd/receiver/main.go:127-142 | the WaitGroup can be found in use again while a waiter resumes, which panics, if and only if there are at least three workers |
| `GenData.GenerateJoin` | mppj-exps/gen_data.py:32-88 | every random choice leaves exactly joinsize common keys with their generated values, and each table keeps its row count |
| `Groups.Group.ExpAdd` | mppj-go/group.go:76-88 | exponentiation by a sum is the product of the powers, from the group axioms alone |
| `Groups.Group.ExpMul` | mppj-go/group.go:86-88 | raising twice multiplies the exponents |
| `Groups.Group.ExpOfProduct` | mppj-go/group.go:59-88 | exponentiation distributes over Mul |
| `Groups.Group.ExpMod` | mppj-go/group.go:86-119 | exponents only matter modulo the group order |
| `Groups.Group.ExpIsProduct` | mppj-go/group.go:64-88 | the power by n is the product of n copies |
| `Groups.Group.NegatedScalar` | mppj-go/group.go:122-127 | Neg gives the reduced scalar that adds up to a multiple of the order |
| `Groups.Group.ScalarLaws` | mppj-go/group.go:112-127 | scalar Add, Mul and Neg act on exponents as addition, multiplication and negation |
| `Groups.Group.UndoMul` | mppj-go/group.go:59-83 | multiplying by the inverse undoes Mul |
| `Groups.Group.MulBatched` | mppj-go/group.go:64-73 | the loop computes the product, the identity for no points |
| `Groups.Group.ProductOfPermutation` | mppj-go/group.go:64-73 | the product does not depend on the order of the points |
| `Groups.Group.ProductOfPowers` | mppj-go/party_receiver.go:108-111 | a product of powers of one base is its power by the sum |
| `ModelSuites.ResidueLaws` | mppj-go/group.go:15-88 | the group axioms hold of the integers modulo an odd number |
| `ModelSuites.LawsHold` | mppj-go/group.go:15-146 | all laws assumed of the primitives hold together in one suite, so they are consistent |
| `ElGamal.PKEKeyGen` | mppj-go/encryption.go:211-216 | for the drawn scalar r the stored secret key is -r modulo the group order, and pk times g^sk is the identity, so that pk is g^r |
| `ElGamal.EncryptNextUnit` | mppj-go/encryption.go:97-108 | encryption without randomness is (1, m), and each further unit of it multiplies c0 by the generator and c1 by the public key |
| `ElGamal.ReRandAddsRandomness` | mppj-go/encryption.go:182-193 | re-randomizing an encryption with randomness r0 by r is the encryption with r0 + r |
| `ElGamal.EvalScalesRandomness` | mppj-go/prf.go:31-36 | OPRFEval by k of an encryption of m with randomness r0 is the encryption of m^k with r0 k + r |
| `ElGamal.ReRandKeepsMessage` | mppj-go/encryption.go:182-193 | re-randomization keeps the message |
| `ElGamal.EvalRaisesMessage` | mppj-go/prf.go:31-36 | OPRFEval maps an encryption of m to one of m^k |
| `ElGamal.MulMultipliesMessage` | mppj-go/party_helper.go:75-76 | multiplying c1 by a point multiplies the message by it |
| `ElGamal.DecryptRecovers` | mppj-go/encryption.go:134-141 | decryption with the negated key returns the message for every randomness |
| `ElGamal.HomomorphicRun` | mppj-go/encryption.go:97-193 | any sequence of re-randomizations, evaluations and multiplications can be done on the ciphertext or on the message |
| `Padding.Pad` | mppj-go/encryption.go:66-75 | the padded length is the next multiple of the block size above the length |
| `Padding.Unpad` | mppj-go/encryption.go:78-92 | the loop accepts and strips exactly as the specification says |
| `Padding.UnpadAccepts` | mppj-go/encryption.go:78-92 | accepts exactly a string followed by n copies of the byte n, n > 0, and returns the string |
| `Padding.UnpadUndoesPad` | mppj-go/encryption.go:66-92 | unpad undoes pad if and only if the padding length fits in a byte |
| `Suites.P256Fits` | mppj-go/encryption.go:20 | the prime of P-256 has the size that the embedding needs |
| `Suites.P256BasePoint` | mppj-go/encryption.go:20 | the base point of P-256 meets the curve equation with the parameters of the model |
| `Suites.CurveParams.RootsAreOrdinates` | mppj-go/encryption.go:336-345 | y is a root of what the loop computes from x if and only if (x, y) meets the curve equation |
| `Suites.Suite.SessionDomain` | mppj-go/group.go:141-146 | a uid is hashed in the domain made of the 15 letters hash_to_element and the session id |
| `Embedding.NewMessageFromBytes` | mppj-go/encryption.go:316-371 | the search terminates and returns the point of the first candidate on the curve |
| `Embedding.EmbeddedPoint` | mppj-go/encryption.go:316-371 | the point is encoded as the first candidate for which the curve has a point, and the parity of its ordinate |
| `Embedding.FirstAttemptExactly` | mppj-go/encryption.go:327-361 | the search ends at attempt i if and only if its candidate, and no earlier one, is the x-coordinate of a point of the curve |
| `Embedding.CandidateFits` | mppj-go/encryption.go:327-361 | candidates stay below the field prime exactly for strings of at most 30 bytes |
| `Embedding.EmbeddingSucceeds` | mppj-go/encryption.go:316-371 | succeeds exactly for 1 to 30 bytes for which one of 255 candidates is the x-coordinate of a point of the curve |
| `Embedding.MiddleOfCoordinate` | mppj-go/encryption.go:374-390 | for every point with an x-coordinate of 256 or more, GetMessageBytes gives exactly the digits of x in base 256 without the first and the last |
| `Embedding.EmbeddingRoundTrip` | mppj-go/encryption.go:316-390 | GetMessageBytes always returns a string of the same length, and the original one if and only if fewer than 255 attempts were needed |
| `Embedding.EarlyAttemptKeepsPayload` | mppj-go/encryption.go:327-361 | attempts 1 to 254 only change the counter byte |
| `Embedding.CarryChangesPayload` | mppj-go/encryption.go:353-360 | attempt 255 carries into the payload and changes it |
| `Embedding.LastAttemptAddsOne` | mppj-go/encryption.go:353-390 | with attempt 255 a string decodes to the next one as a number, unless all its bytes are 0xff |
| `Vectors.PKEEncryptVector` | mppj-go/encryption.go:111-131 | the loop encrypts the points of the padded chunks, or fails exactly if one does not embed |
| `Vectors.ReRandVector` | mppj-go/encryption.go:196-208 | in every order of the goroutines, ciphertext i is the re-randomization of ciphertext i |
| `Vectors.PKEDecryptVector` | mppj-go/encryption.go:144-179 | in every order of the goroutines, the joined and unpadded chunks, or an error exactly if one fails |
| `Vectors.ReRandKeepsAll` | mppj-go/encryption.go:196-208 | re-randomizing a vector keeps every message |
| `Vectors.ConcatOfChunks` | mppj-go/encryption.go:116-119 | joining the chunks of a string gives the string |
| `Vectors.ChunksOfConcat` | mppj-go/encryption.go:170-172 | cutting joined chunks gives the chunks |
| `Vectors.PointsRoundTrip` | mppj-go/encryption.go:111-179 | the points of a value decode to it if and only if no chunk needed the last attempt |
| `Vectors.DecodedRanksLower` | mppj-go/encryption.go:144-179 | without a wrapping chunk, a value decodes to itself or to a string that ranks lower, shorter ones first and then greater ones |
| `Vectors.VectorDecrypts` | mppj-go/encryption.go:134-179 | decrypting encryptions of points gives what the points decode to, however often re-randomized |
| `Vectors.VectorRoundTrip` | mppj-go/encryption.go:111-208 | decrypting a value, however often re-randomized, returns it if and only if no chunk needed the last attempt; there are len/30 + 1 ciphertexts |
| `Vectors.ValuePointAt` | mppj-go/encryption.go:111-131 | point i of a value is that of the bytes from 30 i of the value and its padding |
| `Vectors.ValueHasPointsExactly` | mppj-go/encryption.go:111-131 | a value can be encrypted if and only if for each chunk the curve has a point at one of the 255 candidates |
| `Vectors.CiphertextAt` | mppj-go/encryption.go:97-131 | ciphertext i is g^r and the point of chunk i times pk^r, with draw i |
| `Vectors.ReRandAddsAll` | mppj-go/encryption.go:196-208 | re-randomizing a vector adds the draws one by one |
| `Serialization.SerializeCiphertexts` | mppj-go/encryption.go:232-243 | the loop concatenates the encodings |
| `Serialization.DeserializeCiphertexts` | mppj-go/encryption.go:246-263 | the loop returns the decoded list, or fails exactly if the specification does |
| `Serialization.SerializedAt` | mppj-go/encryption.go:219-243 | without identity points the bytes from 66 i on are the encodings of c0 and c1 of ciphertext i |
| `Serialization.DeserializedExactly` | mppj-go/encryption.go:246-291 | any bytes are decoded to a list if and only if the points of the list stand in them, at these places and nothing else |
| `Serialization.CtrEncrypts` | mppj-go/encryption.go:453-465 | for keys of 16, 24 or 32 bytes each bit of the output is the sum modulo two of those of the data and of the key stream; other keys fail |
| `Serialization.KeyDerivation` | mppj-go/encryption.go:436-450 | the 16-byte key is derived from the encoding of the point, which no other point has, with the session id as salt |
| `Serialization.SerializeLength` | mppj-go/encryption.go:219-230 | without identity points a ciphertext has 66 bytes and decodes to itself |
| `Serialization.IdentityRefused` | mppj-go/encryption.go:266-291 | a chunk cut from an encoding with an identity point is refused |
| `Serialization.CiphertextsRoundTrip` | mppj-go/encryption.go:232-263 | a list without identity points survives, any other list is refused and never decodes to something else |
| `Serialization.CtrTwice` | mppj-go/encryption.go:436-475 | encrypting twice under the key of a point gives the data back |
| `Serialization.PayloadRoundTrip` | mppj-go/party_helper.go:65-73 | opening a sealed payload gives the index truncated to a byte and the ciphertexts, or fails exactly if one holds an identity point |
| `Serialization.SealedIndex` | mppj-go/party_helper.go:65-73 | the first sealed byte is the index, truncated to a byte, combined bit by bit with the first byte of the key stream |
| `Serialization.SealedByte` | mppj-go/party_helper.go:65-73 | each later byte is that of the encoding of a point, combined with the key stream at its place |
| `Serialization.OpenedExactly` | mppj-go/party_receiver.go:119-140 | with any key of the right size, opening gives the first decrypted byte and the points that stand in the others, or fails |
| `Messages.GetEncRowMsg` | mppj-go/api/messages.go:13-28 | the buffer holds the uid and the first value ciphertext at their offsets; panics exactly without a value |
| `Messages.EncRowArrives` | mppj-go/api/messages.go:13-43 | the helper gets the uid and the first value ciphertext, or refuses the message because of an identity point |
| `Messages.EncRowRoundTrip` | mppj-go/api/messages.go:13-43 | a row arrives unchanged if and only if its value is one ciphertext and no point is the identity |
| `Messages.EncRowLayout` | mppj-go/api/messages.go:13-31 | without identity points the 132 bytes are the encodings of the points of the uid and of the first value ciphertext, in this order |
| `Messages.EncRowDecodes` | mppj-go/api/messages.go:33-45 | any message is decoded to the points that stand in its four fields, and to one value ciphertext |
| `Messages.GetEncRowWithHintMsg` | mppj-go/api/messages.go:45-66 | the buffer holds the three ciphertexts and the payload at their offsets |
| `Messages.EncRowWithHintArrives` | mppj-go/api/messages.go:45-87 | a converted row with a payload of any length arrives unchanged, or is refused exactly if a point is the identity |
| `Messages.EncRowWithHintLayout` | mppj-go/api/messages.go:47-66 | without identity points bytes 0, 66 and 132 begin the encodings of the points of the pseudonym, the blinded key and the hint, and the payload begins at 198 |
| `Messages.EncRowWithHintDecodes` | mppj-go/api/messages.go:68-87 | any message is decoded to the points that stand in its six fields, and the rest |
| `Tables.JoinTable.constructor` | mppj-go/table.go:86-94 | an empty table over the given sources |
| `Tables.JoinTable.Insert` | mppj-go/table.go:96-107 | for every map order, appends the row with each value in its source's first column, or fails and changes nothing exactly if a source is unknown |
| `Tables.EachValueOnce` | mppj-go/table.go:96-107 | a value stands in the first column of its source only, and a source without a value leaves its columns empty |
| `Tables.JoinTable.EqualContents` | mppj-go/table.go:146-172 | the loops decide Accepts; panics exactly if the other source list is a proper prefix and the row counts agree |
| `Tables.AcceptsPermutations` | mppj-go/table.go:146-172 | every reordering of the rows is accepted |
| `Tables.JoinInjective` | mppj-go/table.go:158-162 | joining with &#124; is injective between rows of equal width if there is one column, or one of the rows holds no &#124; |
| `Tables.BarsOfJoin` | mppj-go/table.go:160 | a joined row of n columns holds n - 1 bars, and more exactly if a value holds one |
| `Tables.JoinConcat` | mppj-go/table.go:160 | columns are joined in order with one &#124; between them |
| `Tables.Twin` | mppj-go/table.go:160 | a row of two or more columns that holds a bar is joined like a different row |
| `Tables.AmbiguousIsAccepted` | mppj-go/table.go:158-171 | a second table that repeats a row, or has two columns and a bar, is accepted for a first table with other rows |
| `Tables.AcceptsReordered` | mppj-go/table.go:146-172 | acceptance does not depend on the order of the rows of either table |
| `Tables.AcceptedTablesAgree` | mppj-go/table.go:146-172 | a second table with different rows, without &#124; unless there is one column, is accepted if and only if the row multisets are equal, whatever the first table holds |
| `Tables.AcceptsDifferentTables` | mppj-go/table.go:158-171 | two inputs that are accepted although they differ: a bar in one of two columns, and a repeated row |
| `Tables.SourcesAccepted` | mppj-go/table.go:152-156 | for every second table, and every list of sources that is not empty, some table over that list is accepted for it if and only if the list is the beginning of its own |
| `Tables.GroupTable` | mppj-go/table.go:220-227 | adds the values of one table to the groups |
| `Tables.GroupByUid` | mppj-go/table.go:219-227 | for every map order, the group of a uid is exactly the values the tables hold for it |
| `Tables.FullGroup` | mppj-go/table.go:229-234 | a group has as many values as there are tables if and only if its uid is in all tables |
| `Tables.IntersectSimple` | mppj-go/table.go:216-236 | for every map order, one row per common uid and nothing else; no rows at all if a table belongs to no listed source |
| `Tables.JoinIsUnique` | mppj-go/table.go:216-236 | two joins of the same tables have the same rows |
| `Tables.JoinRowColumns` | mppj-go/table.go:216-236 | column i of a join row is the value of the i-th source's table |
| `DataSources.ProcessedMeans` | mppj-go/party_datasource.go:91-95 | a processed row encrypts the hashed uid and the points of the value |
| `DataSources.ProcessedDecrypts` | mppj-go/party_datasource.go:91-95 | it decrypts to the hash, and to the value exactly if it embeds early; it has one value ciphertext exactly under 30 bytes |
| `DataSources.DataSource.ProcessRow` | mppj-go/party_datasource.go:91-95 | with the key given at construction, and its draws, computes the encrypted row; fails exactly if the value does not embed |
| `DataSources.DataSource.FeederSteps` | mppj-go/party_datasource.go:74-86 | steps of the feeder and the closing goroutine conserve the rows |
| `DataSources.DataSource.WorkerTakes` | mppj-go/party_datasource.go:60-70 | taking a row and finishing conserve the rows |
| `DataSources.DataSource.WorkerEmits` | mppj-go/party_datasource.go:62-67 | emitting conserves the rows, and the row emitted encrypts its entry |
| `DataSources.DataSource.WorkerAborts` | mppj-go/party_datasource.go:63-65 | a worker that returns without Done stays counted |
| `DataSources.DataSource.Drained` | mppj-go/party_datasource.go:74-86 | when nothing can move, the output is closed and complete exactly if every value embeds |
| `DataSources.DataSource.ShuffledUids` | mppj-go/party_datasource.go:75-82 | the feeder sends every uid of the table once |
| `DataSources.DataSource.PrepareStream` | mppj-go/party_datasource.go:42-89 | in every interleaving of n >= 1 workers the output channel is closed if and only if every value embeds, and then holds one encrypted row per uid |
| `DataSources.DataSource.Collect` | mppj-go/party_datasource.go:29-36 | the array index is in range exactly while rows are not too many; equal counts give the rows |
| `DataSources.DataSource.Prepare` | mppj-go/party_datasource.go:20-39 | returns one encrypted row per uid, or never returns exactly if a value does not embed; ignores its key argument |
| `WorkerPools.Pool.ReceiveConserves` | mppj-go/party_helper.go:121-125 | receiving a task or leaving the loop conserves pending, in-flight and done tasks |
| `WorkerPools.Pool.CompleteConserves` | mppj-go/party_helper.go:130-136 | so does completing one |
| `WorkerPools.Pool.AllCompleted` | mppj-go/party_helper.go:141 | when all workers have left, the order of completion is a permutation of the tasks |
| `Helpers.Helper.constructor` | mppj-go/party_helper.go:22-31 | keeps the drawn key and shares, each source has its position as index, the shares add up to the pad key, and the slots are a permutation of nRows times the number of sources |
| `Helpers.Helper.GenNonces` | mppj-go/party_helper.go:44-58 | keeps the draws as the shares; the pad key is their sum modulo the group order |
| `Helpers.Helper.BlindAndHint` | mppj-go/party_helper.go:61-81 | the payload, the blinded key and the hint as specified |
| `Helpers.Helper.ConvertRow` | mppj-go/party_helper.go:146-155 | the conversion of the row with its draws; panics exactly without a key share |
| `Helpers.ConvertedCarries` | mppj-go/party_helper.go:61-81 | a converted row carries the pseudonym, the masked ephemeral point, the share of the mask, and the sealed index and values |
| `Helpers.DrawsCarry` | mppj-go/party_helper.go:61-81 | the same for given draws: the ephemeral point and the sealed ciphertexts are those of the draws |
| `Helpers.AllSlotsExactly` | mppj-go/party_helper.go:116-134 | no slot stays empty if and only if there are as many rows as slots |
| `Helpers.Helper.ConvertAndStore` | mppj-go/party_helper.go:126-136 | stores to the next slot of rowPerm, or panics exactly if there is none |
| `Helpers.NextSlot` | mppj-go/party_helper.go:131-135 | no slot is written twice, and the filled slots are the first ones of rowPerm |
| `Helpers.SlotsShuffled` | mppj-go/party_helper.go:131-135 | slot k of a full table holds the row stored as the j-th, where rowPerm at j is k |
| `Helpers.ConvertedTableExactly` | mppj-go/party_helper.go:110-144 | tasks with key shares have a converted table if and only if they are not more than the slots |
| `Helpers.Helper.ConvertTablesStream` | mppj-go/party_helper.go:110-144 | in every interleaving the filled slots hold a conversion of each task once; panics exactly if there are too many rows or an index without share |
| `Helpers.Helper.FeedTables` | mppj-go/party_helper.go:88-98 | for every map order, feeds every row of every table with its source's index |
| `Helpers.UnlistedFedAsFirst` | mppj-go/party_helper.go:89-96 | the table of an unlisted source is converted as one of the first source |
| `Helpers.Helper.Convert` | mppj-go/party_helper.go:84-101 | for every map order, converts the rows of all tables |
| `Helpers.RandPerm` | mppj-go/party_helper.go:29 | any permutation |
| `Receivers.Receiver.constructor` | mppj-go/party_receiver.go:35-44 | keeps its arguments |
| `Receivers.Receiver.WithFreshKeys` | mppj-go/party_receiver.go:18-33 | both key pairs match, and their secrets are the negated draws |
| `Receivers.MembersComplete` | mppj-go/party_receiver.go:80-89 | a group lists exactly the rows with its key |
| `Receivers.AddRowGroups` | mppj-go/party_receiver.go:86-88 | appending a row under its key keeps the grouping |
| `Receivers.DecryptedRowsExactly` | mppj-go/party_receiver.go:114-149 | a group decrypts exactly if each of its rows does |
| `Receivers.DecryptedRowsKeys` | mppj-go/party_receiver.go:131-147 | only listed sources occur in the result |
| `Receivers.LateColumnsStayEmpty` | mppj-go/party_receiver.go:131-189 | with more than 256 sources the columns from 256 on are empty in every row that the receiver can output |
| `Receivers.Receiver.DecryptGroup` | mppj-go/party_receiver.go:97-150 | the loops accumulate the mask and the map as specified; panics exactly if a row fails |
| `Receivers.Receiver.GroupRows` | mppj-go/party_receiver.go:72-92 | in every interleaving the groups hold every row once under its key; exits exactly if a row has no key |
| `Receivers.Receiver.FullGroups` | mppj-go/party_receiver.go:179-183 | exactly the complete groups are sent to the workers, once each |
| `Receivers.Receiver.DecryptTasks` | mppj-go/party_receiver.go:160-176 | in every interleaving one row is inserted per task, or a task that does not decrypt panics |
| `Receivers.Receiver.IntersectHint` | mppj-go/party_receiver.go:152-189 | one row per complete group; panics exactly if a complete group does not decrypt |
| `Receivers.GroupsOpenPermuted` | mppj-go/party_receiver.go:70-150 | for any rows at all, whether the complete groups decrypt does not depend on the order of arrival |
| `Receivers.HintsPermuted` | mppj-go/party_receiver.go:108-111 | nor does the mask of a group |
| `Receivers.Receiver.JoinTablesStream` | mppj-go/party_receiver.go:70-95 | completes exactly if all rows have keys and the complete groups decrypt, which the rows alone decide in every interleaving, with one row per complete group |
| `Receivers.Receiver.JoinTables` | mppj-go/party_receiver.go:55-68 | the same for a table; an empty slot panics |
| `Protocol.Session.ConversionCarries` | mppj-go/party_helper.go:146-155 | the conversion of a prepared row carries its uid's pseudonym, its source and its value |
| `Protocol.Session.TaskMeans` | mppj-go/party_helper.go:88-96 | a task encrypts its hashed uid and the points that are sent of its value |
| `Protocol.Session.ConvertedRowsFrom` | mppj-go/party_helper.go:110-144 | a converted table without empty slots holds each row of each table once |
| `Protocol.Session.RowNym` | mppj-go/party_receiver.go:81 | the grouping key of a converted row is that of its uid's pseudonym |
| `Protocol.Session.SameUidInGroup` | mppj-go/party_receiver.go:81-87 | two rows share a key exactly if they share a uid |
| `Protocol.Session.GroupSourcesOf` | mppj-go/party_receiver.go:86-88 | source i is in the group of a uid if and only if its table has the uid |
| `Protocol.Session.FullGroupIsCommon` | mppj-go/party_receiver.go:179-181 | no group exceeds the number of sources, a group is complete if and only if its uid is in every table, and then holds every source index once |
| `Protocol.Session.MaskIsPadKey` | mppj-go/party_receiver.go:108-112 | the hints of a complete group, in any order, multiply to the pseudonym raised to the pad key |
| `Protocol.Session.KeyUnmasked` | mppj-go/party_receiver.go:116 | the unmasked key is the helper's ephemeral point |
| `Protocol.Session.RowDecrypts` | mppj-go/party_receiver.go:115-147 | an unmasked row yields its source and what is delivered of its value, and panics exactly if its payload holds an identity point or its points do not decode |
| `Protocol.Session.GroupDecrypts` | mppj-go/party_receiver.go:97-150 | a complete group decrypts to exactly what is delivered of the values of its uid, each under its source, and panics exactly if a row does |
| `Protocol.Session.OutputIsJoin` | mppj-go/party_receiver.go:152-189 | inserting one row per complete group gives the join of what is delivered of the tables |
| `Protocol.Session.IntactExactly` | mppj-go/encryption.go:111-179 | a value is delivered as it is if and only if no chunk needs the 255th attempt and, over the wire, it has fewer than 30 bytes |
| `Protocol.Session.LongValueCut` | mppj-go/api/messages.go:18 | over the wire a longer value is cut to 30 bytes and unpadded: the receiver panics or gets a shorter value |
| `Protocol.Session.RowIntactExactly` | mppj-go/party_receiver.go:131-147 | the output row of a shared uid is that of the plaintext join if and only if all its values are intact |
| `Protocol.Session.ReceivedRanksLower` | mppj-go/encryption.go:111-179 | without a wrapping chunk, what is received of a value is the value or ranks lower, in memory and over the wire |
| `Protocol.Session.CarriedOpens` | mppj-go/party_receiver.go:117-140 | a payload opens if and only if none of its points is the identity, whatever it is taken to carry |
| `Completion.DrawDecides` | mppj-go/party_helper.go:63-73 | a converted row opens if and only if no draw for its ciphertexts hits the identity |
| `Completion.DrawsOfTable` | mppj-go/party_helper.go:110-144 | every full table was converted with some draws, in the order of storing |
| `Completion.UnluckyDraw` | mppj-go/encryption.go:182-193 | for every prepared row there are draws that hit the identity and make its payload unreadable |
| `Completion.UnluckyRun` | mppj-go/party_receiver.go:137-140 | whenever the tables share a uid there are draws with which the receiver panics |
| `Completion.WireCompletesExactly` | mppj-go/cmd/receiver/main.go:132-147 | rows that carry the tables: all their messages decode and the receiver completes on them in any order, if and only if their points are no identities, and the conditions of the run in memory hold |
| `Completion.WireCompletesOnDraws` | mppj-go/cmd/receiver/main.go:132-147 | the same as a condition on the draws |
| `Completion.UnluckyHint` | mppj-go/cmd/receiver/main.go:132-136 | for every row, shared or not, and all other draws, a draw that makes the first point of the hint the identity, on whose message the receiver exits |
| `Completion.UnluckyNym` | mppj-go/cmd/receiver/main.go:132-136 | such a draw for the pseudonym |
| `Completion.UnluckyKey` | mppj-go/cmd/receiver/main.go:132-136 | such a draw for the blinded key |
| `Completion.NoKeyExactly` | mppj-go/encryption.go:374-390 | a point has no grouping key if and only if it is the identity or its x-coordinate is below 256 |
| `Completion.ZeroKeyHasNoNyms` | mppj-go/party_helper.go:34-37 | with a conversion key that is zero modulo the group order no uid has a grouping key: an input |
| `Completion.CollisionLosesRows` | mppj-go/party_receiver.go:179-181 | two shared uids with one grouping key make a group that is too large, so that the row of neither is output |
| `Completion.GroupSizeExactly` | mppj-go/party_receiver.go:179-181 | whatever uids share keys: a group has as many rows as rows of tables have its key, and is complete if and only if these are as many as the sources |
| `Completion.CollisionMakesGroup` | mppj-go/party_receiver.go:179-181 | of two sources, each with a uid that the other lacks, one grouping key makes a complete group of two unshared uids, which the receiver tries to open |
| `EndToEnd.PreparedTasks` | mppj-go/party_helper.go:88-98 | for every map order, the tasks fed are the rows of the tables, each once |
| `Examples.HypothesesHold` | mppj-go/mppj_test.go:11-60 | the hypotheses of the main theorem can be met, with intact values and grouping keys, by two sources that share a uid |
| `ExamplesOnWire.NetworkHypothesesHold` | mppj-go/cmd/receiver/main.go:67-144 | the hypotheses of the theorems over the network can be met: a run of the server and one of the pool that serve and forward the tables of two sources |
| `EndToEnd.CoversCount` | mppj-go/party_helper.go:90-96 | every listing of the rows of the tables has as many entries as the tables have rows |
| `EndToEnd.FeedHoldsTables` | mppj-go/party_helper.go:84-144 | whatever Convert returns holds each row of each table once if the rows fill the slots, has an empty slot exactly if they are fewer, and fails exactly if they are more |
| `EndToEnd.CompletesIfOpen` | mppj-go/party_receiver.go:55-95 | under `NymInjective`, the receiver's own conditions for completing are those of the tables, keys and draws |
| `EndToEnd.CompletedJoins` | mppj-go/mppj_test.go:48-51 | under `NymInjective`, the result is the join of what is delivered, and the plaintext join if the values of shared uids are intact |
| `EndToEnd.AcceptedExactly` | mppj-go/mppj_test.go:54-58 | the comparison does not depend on the order in which either join lists its rows |
| `EndToEnd.PrepareAll` | mppj-go/mppj_test.go:27-36 | one prepared table per source, exactly if every value embeds |
| `EndToEnd.PrepareAndConvert` | mppj-go/mppj_test.go:24-43 | for all inputs: no table exactly if a value does not embed or the rows are too many, an empty slot exactly if they are too few, otherwise each row of each table once |
| `HelperServers.PushedNext` | mppj-go/cmd/helper/main.go:112 | passing a row on adds exactly its task to those pushed |
| `HelperServers.Server.RunsKeepInvariant` | mppj-go/cmd/helper/main.go:36-161 | in every run: indices belong to their sources, tasks are the rows of the calls, unexpected sources have finished, PullRows calls take turns, and workers and calls panic only for a wrong number of rows |
| `HelperServers.Server.StepKeepsTasks` | mppj-go/cmd/helper/main.go:99-114 | no step loses, adds or duplicates a pushed row |
| `HelperServers.Server.StepKeepsDone` | mppj-go/cmd/helper/main.go:121-127 | exactly the sources with a finished session have left expected |
| `HelperServers.Server.StepKeepsStopped` | mppj-go/cmd/helper/main.go:132-158 | stop is closed exactly when some PullRows call has ended |
| `HelperServers.Server.StartAndStopOnce` | mppj-go/cmd/helper/main.go:94-158 | start is closed exactly once if a source was admitted, and stop exactly once if a call sent the whole table, for any number of PullRows calls and even with overlapping sessions |
| `Overlaps.OverlapPanics` | mppj-go/cmd/helper/main.go:89-127 | an input for every server: a source that opens two sessions at once, after which a channel panic can follow |
| `Overlaps.TwoSessionsPanic` | mppj-go/cmd/helper/main.go:89-127 | whenever a source has two sessions open, before or after the close, a channel panic can follow |
| `HelperServers.Server.OneCallEach` | mppj-go/cmd/helper/main.go:81-130 | without overlap and failure each source has exactly one session when the channel closes |
| `HelperServers.Server.PullAfterPush` | mppj-go/cmd/helper/main.go:132-141 | a PullRows call has the table only after every listed source has finished a session, and without overlap no session is open then |
| `HelperServers.Server.PulledRows` | mppj-go/cmd/helper/main.go:132-158 | the messages sent are those of the converted rows, in slot order, of exactly the rows pushed |
| `HelperServers.Server.StoppedFillsSlots` | mppj-go/cmd/helper/main.go:142-158 | a call that has sent the whole table implies that the rows pushed filled the slots |
| `HelperServers.Server.ZeroRowExactly` | mppj-go/cmd/helper/main.go:143-148 | while nobody has taken the table, a call can still panic at an empty slot if and only if fewer rows were pushed than there are slots |
| `Deliveries.ConvertsExactly` | mppj-go/party_helper.go:110-144 | once the channel is closed the conversion can deliver some table if and only if there are not more rows than slots |
| `Deliveries.ConvertAndSend` | mppj-go/cmd/helper/main.go:132-158 | every table that the conversion can deliver can be taken and sent whole by a PullRows call, if the rows fill the slots |
| `Deliveries.PushAll` | mppj-go/cmd/helper/main.go:81-130 | for any rows and any number k of sources: the first k can push them one after the other, and nothing panics; each has one finished session then, the tasks are the rows, and the channel is closed after the last source |
| `HelperServers.Server.NothingPanics` | mppj-go/cmd/helper/main.go:81-161 | when sessions do not overlap and the rows pushed fill the slots, nothing has panicked |
| `ForwardPools.Download` | mppj-go/cmd/receiver/main.go:90-125 | the loop passes on the announced number of rows, exits if there are fewer, and passes on one row if none was announced |
| `ForwardPools.DownloadedExactly` | mppj-go/cmd/receiver/main.go:90-125 | what is passed on is the shortest beginning of the stream with the announced number of rows, and one row at least if there is any; the receiver exits if and only if the stream is shorter |
| `ForwardPools.Forwarder.RunsKeepInvariant` | mppj-go/cmd/receiver/main.go:127-142 | each row taken is held by one worker or was sent once, and none is held after wg.Wait was released |
| `ForwardPools.Forwarder.NoDeadlock` | mppj-go/cmd/receiver/main.go:127-142 | a run that cannot go on and has not panicked has closed inRows once, with all rows sent and all workers returned |
| `ForwardPools.Forwarder.CanClose` | mppj-go/cmd/receiver/main.go:127-142 | every pool with a worker has a run that closes inRows |
| `ForwardPools.Forwarder.RunsStop` | mppj-go/cmd/receiver/main.go:127-142 | no run is longer than a bound given by the numbers of workers and rows |
| `ForwardPools.Forwarder.LateSpawnPanics` | mppj-go/cmd/receiver/main.go:129-141 | a worker started after wg.Wait was released and before it resumed makes it panic |
| `Deployments.IndexOfCall` | mppj-go/cmd/helper/main.go:64-66 | with distinct sources the index of a session is the position of its source |
| `Deployments.ReceivedAreSent` | mppj-go/cmd/source/main.go:82-97 | the rows received from a source are its prepared rows with the first ciphertext of each value |
| `Deployments.DeployedRows` | mppj-go/cmd/receiver/main.go:87-144 | what the receiver forwards are the rows of all tables, each once |
| `Completion.AllDecodeExactly` | mppj-go/cmd/receiver/main.go:132-138 | the pool exits on no message if and only if no point of a converted row is the identity |
| `Deployments.ServedTable` | mppj-go/cmd/helper/main.go:132-158 | the table of a served run holds the rows of all tables, each once, and its messages are what is sent |
| `Deployments.DownloadsWhole` | mppj-go/cmd/receiver/main.go:90-125 | however a PullRows call ended, the receiver goes on if and only if the whole table was sent, and then has exactly what was sent |
| `Deployments.DecodedIsForwarded` | mppj-go/cmd/receiver/main.go:127-142 | if all messages decode, every run of the pool that closes inRows has forwarded the rows |
| `Deployments.CanBeServed` | mppj-go/cmd/helper/main.go:81-158 | every session whose rows fill the slots can be served, without overlap, with every table that can be converted from its rows |
| `Deployments.CanBeForwarded` | mppj-go/cmd/receiver/main.go:87-142 | and if all its messages decode, some pool forwards it to the end |
| `Deployments.ServerTasks` | mppj-go/cmd/helper/main.go:99-114 | the tasks converted are the rows of all tables, each once |
| `Deployments.ForwardedRows` | mppj-go/cmd/receiver/main.go:132-138 | the receiver gets the rows of the helper's table, reordered |
| `GenData.GenerateTables` | mppj-exps/gen_data.py:32-44 | every table gets the same nRows keys, with values of its source |
| `GenData.DecimalReads` | mppj-exps/gen_data.py:38-41 | a number is written in decimal digits that stand for it, without leading zeros |
| `GenData.KeyNames` | mppj-exps/gen_data.py:38-64 | a key is key_ and its row number, and a new name removed_ and the old key |
| `GenData.ValueText` | mppj-exps/gen_data.py:41 | a value is val_, its source and a number from 1 to 1000 |
| `GenData.DecimalInjective` | mppj-exps/gen_data.py:38 | different row numbers give different keys |
| `GenData.GeneratedDoNotClash` | mppj-exps/gen_data.py:38-64 | no generated key is the new name of another |
| `GenData.RenameOne` | mppj-exps/gen_data.py:65-67 | renaming keeps the row count, the value and all other entries |
| `GenData.RenameIn` | mppj-exps/gen_data.py:65-67 | the inner loop makes the round: renames in exactly the chosen tables, or fails exactly if one lacks the key |
| `GenData.SampleDicts` | mppj-exps/gen_data.py:63 | at least one table and not all of them |
| `GenData.CommonAfter` | mppj-exps/gen_data.py:62-67 | without a clash the common keys after any rounds are exactly those without a round, with their values |
| `GenData.RoundsSucceed` | mppj-exps/gen_data.py:62-67 | with the same keys in all tables no choice of rounds fails |
| `GenData.TableRenamed` | mppj-exps/gen_data.py:65-67 | without a clash each table has exactly the keys of its rounds renamed |
| `GenData.RenamedMissing` | mppj-exps/gen_data.py:62-67 | a renamed key is missing in some table, and so is its new name |
| `GenData.PostprocessedBy` | mppj-exps/gen_data.py:46-69 | without a clash every admissible choice leaves joinsize common keys with their values, and all rows |
| `GenData.RenameCount` | mppj-exps/gen_data.py:66-67 | renaming loses a row exactly if the new name is taken |
| `GenData.FirstRoundLoses` | mppj-exps/gen_data.py:62-67 | a row lost in the first round is not restored by later ones |
| `GenData.ClashingChoice` | mppj-exps/gen_data.py:59-67 | for clashing keys there is an admissible choice that loses a row |
| `GenData.RemoveKeys` | mppj-exps/gen_data.py:62-67 | the outer loop makes rounds on the keys to remove, each once, and stops at a KeyError |
| `GenData.PostprocessTables` | mppj-exps/gen_data.py:46-69 | for all inputs: the result of some admissible rounds, or a failure exactly where they fail; with the same keys it succeeds, and without a clash joinsize common keys and all rows remain; fails if there are too few keys or one table only |
| `GenData.ClashLosesRow` | mppj-exps/gen_data.py:46-69 | an input: two equal tables with a key and its new name, a joinsize of one and a choice after which a row is lost |
| `GenData.JoinTables` | mppj-exps/gen_data.py:72-88 | exactly the keys common to all tables, each with its column of values |

## Left out

- Secrecy, indistinguishability, the quality of randomness and constant-time behaviour: only functional correctness for all draws is stated.
- The bodies of circl, elliptic, AES, HKDF, hash-to-curve and ModSqrt: abstract functions with the laws listed above. The fixed info string of HKDF and the zero nonce of CTR mode are part of those functions.
- Hash and pseudonym collisions: `NymInjective` is a hypothesis.
- Panics, exits and error returns are not told apart: all are `None`, or `ok` false.
- HelperServers.Server.RunsKeepInvariant: messages shorter than 132 bytes, whose slicing depends on the capacity of the buffer, and messages that do not decode are the error step of a session.
- HelperServers.Server.PulledRows: the conversion is one step of the server's runs, which delivers any table that `Helpers.Helper.ConvertTablesStream` can return for the tasks; its interleavings are proved there. When a table can be delivered is stated (`Deliveries.DeliversExactly`); that clients open sessions and go on with them is up to them.
- ForwardPools.Forwarder.PanicsExactly: `wg.Done` of the last worker and the release of the waiter are one step, so further checks inside `sync.WaitGroup` that can fail in the same window are not modelled.
- GenData.PostprocessTables: tables are values, so a list holding one dictionary object twice is not covered.
- Protocol.Session.JoinExactly: for a shared chunk of thirty 0xff bytes that needs the 255th attempt, and so wraps around to zeros, only the rows that differ are named (`Protocol.Session.RowIntactExactly`), not that they differ as a multiset: tables that hold every string of 30 bytes could permute them.
- Worker identities: the workers of a pool run the same code, so a state counts them.
- The gRPC transport, generated code, flags, logging, statistics, CSV and file I/O, the Docker and Ansible set-up, and key distribution (`GetTestKeys`, `GetRPK`).
- `NewSessionID`, the generators of uids and test tables in `mppj-go/table.go`, `EncRow.MarshalBinary`, `String` methods and getters: easy members.
- The MP-SPDZ programs, which compute the same join by a double loop.
