# MiniJAM Work services: a verified model

This project models three parts of MiniJAM Work and proves what they promise.

**The JNS name service, from bytes to registry.** A script is given a length-prefixed, strictly sorted
view of the state. Its runtime keeps a sorted overlay over the sorted base, searches both by bisection, asks the
host for keys the view lacks, and prints the overlay as a diff. The service adds JAM's natural-number codec
(Appendix C of the JAM Gray Paper, general natural-number serialization), keys, records and the claim and bind
actions. The host applies a diff under a namespace guard inside a transaction, checks nonces, and folds refined
results into a chain of roots. `Bytes`, `StateView`, `Overlay`, `ScriptResult` and `ScriptRuntime` hold the view,
the overlay, the result format and the runtime as a class over arrays; `PartialViews` and `ScriptDriver` treat any
script; `Bits`, `JamCodec`, `Doubles` and `NaturalCodecs` the codec; `Names`, `NamesService` and `Registry` the
actions and their refinement; `ServiceHost`, `HostRuns` and `Accumulate` the host.

**The Computer Service filesystem.** The service stores nodes and per-directory name indexes separately, and the
client computes each new index. `JamFs` and `Text` hold paths and chunks, `DirectoryIndex` the index text,
`ComputerService` and `LiveFileSystem` the service and the client as classes, `FsInvariant`, `FsSound`, `FsRuns` and
`FsComplete` the agreement of indexes and nodes over operations and runs, `FsFailures` the inputs that break it, `Publishing`,
`SiteManifest`, `Decimal` and `Hexadecimal` the recursive walk and its manifest. `Base64` is the decoder of the
earlier C service.

**The DOOM simulations.** The C service keeps its games as JSON text that it prints and searches: `CText`,
`DoomState`, `DoomService`, `DoomRuns`, `DoomOwners` and `DoomScores`; `DoomPayloads` prints requests, and
`DoomRequests`, `DoomSessions` and `DoomBest` run them. The mock runtime is a deterministic tick machine: `MockDoom`.

Code that loops and updates in place is written as methods and classes, each proved against a function; the
lemmas are about those functions, and about runs of them.

What each operation answers is also spelled out, in literal bytes, texts and numbers, apart from the functions that
compute it: in `ViewSpelled`, `NumbersInBytes`, `NamesInBytes`, `HostNonces` and `HostAnswers` for the name service, in
`PathAnswers`, `IndexAnswers`, `ComputerAnswers` and `PublishAnswers` for the filesystem, and in `TextAnswers`, `DoomInputs`,
`DoomSpelled` and `MockAnswers` for the games. `Spelling` gives text as bytes.

## What turned out false

- `normalizePath` is idempotent except on results that hold a NUL, which a working directory can bring in
  (`JamFs.NormalizeIsIdempotent`, `JamFs.NulWorkingDirectory`).
- The two decoders of a natural number agree exactly on doubles (`NaturalCodecs.DecodersAgree`).
- A directory index does not always name live nodes. It trims what is put into it, of any Unicode white space, and cuts
  it at newlines, so a directory made at `/ a` is listed as `a`, where there is no node (`FsFailures.PaddedMkdirBreaks`),
  and one made at `/ .` makes the root list itself (`FsFailures.RootListsItself`); a rename onto itself loses its file
  (`FsFailures.WrittenThenRenamed`). `FsSound.StepSound` is the exact condition over all operations, and
  `FsComplete.StepComplete` the one for completeness.
- A DOOM session whose id holds a stored field's name between quotes, or is that name, loses the field or replaces it
  at every load (`DoomState.FaithfulSessions` is the exact condition, `DoomState.InjectedField` an input), so the
  accounts of a game hold over every run for some ids only (`DoomRequests.ConservedExactly`).
- An account called `score` loses its best score to a lower one (`DoomBest.LowerScoreOnRecord`); the stored best is the
  maximum over every run exactly for the accounts that do not hold that name (`DoomBest.BestExactly`), whatever their
  sessions are called.
- An account with a quote or backslash cannot play the sessions it creates, and may own another's
  (`DoomOwners.BoundToCreator`, `DoomOwners.TakenByAnother`), although the source's comment binds every session to
  its account.

## Model

| member | source | states |
|---|---|---|
| `Bytes.StrictTotalOrder` | artifacts/jns/stage1/scriptc/scriptc_runtime.ts:45-54 | the byte comparison is irreflexive, transitive and total: two different strings are ordered one way and not the other |
| `Bytes.CompareBytes` | artifacts/jns/stage1/scriptc/scriptc_runtime.ts:45-54 | the loop returns the sign of the lexicographic order, a proper prefix first |
| `Bytes.U32RoundTrip` | artifacts/jns/stage1/scriptc/scriptc_runtime.ts:56-70 | reading the four little-endian bytes that writeU32 stores gives every u32 back |
| `Bytes.U32Inverse` | artifacts/jns/stage1/scriptc/scriptc_runtime.ts:56-70 | four bytes read as a number are the bytes that number is written as |
| `ScriptRuntime.WriteU32` | artifacts/jns/stage1/scriptc/scriptc_runtime.ts:64-70 | writes exactly the four little-endian digits at the offset, keeps every other byte, and returns the offset behind them |
| `ViewSpelled.FieldsSpelled` | artifacts/jns/stage1/scriptc/scriptc_runtime.ts:56-70 | a u32 field is four bytes, the lowest first, both as it is written and as it is read |
| `ViewSpelled.OrderSpelled` | artifacts/jns/stage1/scriptc/scriptc_runtime.ts:45-54 | one key is below another exactly when at their first difference it ends or has the lower byte |
| `ViewSpelled.EntrySpelled` | artifacts/jns/stage1/scriptc/scriptc_runtime.ts:234-248 | an entry is its key with its length, and 0, or 1 and its value with its length |
| `ViewSpelled.BoundsSpelled` | artifacts/jns/stage1/scriptc/scriptc_runtime.ts:80-115 | a view is read exactly when it is the encoding of at most 4096 entries in ascending order, keys of at most 4096 and values of at most 65536 bytes, in at most 1048576 bytes |
| `StateView.ViewBijection` | artifacts/jns/stage1/scriptc/scriptc_runtime.ts:80-115 | the parser accepts a byte string with a list of entries if and only if the list is canonical (at most 4096 entries, keys strictly ascending, length bounds), the string is within 1 MiB and is that list's one encoding |
| `ScriptRuntime.Runtime.InitializeStateView` | artifacts/jns/stage1/scriptc/scriptc_runtime.ts:80-115 | accepts exactly what the grammar accepts, sets the base to the decoded entries in buffers of their own and empties the overlay; on failure base and overlay stay and the pending failure is the invalid-view code |
| `ScriptRuntime.Runtime.ReadEntries` | artifacts/jns/stage1/scriptc/scriptc_runtime.ts:89-112 | the parsing loop over the array returns the grammar's entry list in fresh buffers, or fails exactly where the grammar does |
| `ScriptRuntime.Runtime.ReadEntry` | artifacts/jns/stage1/scriptc/scriptc_runtime.ts:93-110 | one iteration reads one entry whose key is above the previous one, or fails |
| `ScriptRuntime.Runtime.ReadBytes` | artifacts/jns/stage1/scriptc/scriptc_runtime.ts:72-78 | reads a length-prefixed field within its maximum into a fresh buffer, or fails |
| `ScriptRuntime.Runtime.Find` | artifacts/jns/stage1/scriptc/scriptc_runtime.ts:117-127 | the binary search lands behind exactly the keys below the one searched for |
| `Overlay.HasIsDict` | artifacts/jns/stage1/scriptc/scriptc_runtime.ts:117-132 | the search finds a key exactly when the map the sorted list stands for has it, and at its value |
| `Overlay.GetIsLookup` | artifacts/jns/stage1/scriptc/scriptc_runtime.ts:134-146 | the two-level binary search is lookup in the map in which the overlay overrides the base |
| `ScriptRuntime.Runtime.StateGetRaw` | artifacts/jns/stage1/scriptc/scriptc_runtime.ts:134-146 | returns a fresh copy of the visible value or null for a known key; for an unknown key it throws and asks the host for that key; nothing else changes |
| `ScriptRuntime.Runtime.StateHasRaw` | artifacts/jns/stage1/scriptc/scriptc_runtime.ts:181-183 | true exactly when the visible value of a known key is present |
| `Overlay.PutDict` | artifacts/jns/stage1/scriptc/scriptc_runtime.ts:148-163 | inserting or replacing at the searched position is a map update of the list |
| `Overlay.PutSorted` | artifacts/jns/stage1/scriptc/scriptc_runtime.ts:148-163 | inserting or replacing keeps the overlay strictly sorted |
| `ScriptRuntime.Runtime.WriteOverlay` | artifacts/jns/stage1/scriptc/scriptc_runtime.ts:148-163 | the new overlay is the old one with the key put in place, held in copies; over-long keys or values change nothing and record the invalid-view failure |
| `Overlay.WriteFails` | artifacts/jns/stage1/scriptc/scriptc_runtime.ts:148-179 | a write asks for the key exactly when the visible map lacks it, and is refused for size exactly when the value is over-long |
| `Overlay.WriteIsUpdate` | artifacts/jns/stage1/scriptc/scriptc_runtime.ts:148-179 | a successful write keeps the invariant (both lists sorted and bounded, overlay keys among base keys), leaves the base and updates the visible map at that one key |
| `ScriptRuntime.Runtime.StateSetRaw` | artifacts/jns/stage1/scriptc/scriptc_runtime.ts:165-171 | the abstract state becomes the written one, or is unchanged with a request for the key or the size failure; every stored buffer is an old one or fresh, so no caller's buffer is aliased |
| `ScriptRuntime.Runtime.StateDeleteRaw` | artifacts/jns/stage1/scriptc/scriptc_runtime.ts:173-179 | the same for a deletion, recorded as an absent value |
| `ScriptRuntime.Runtime.ApplicationKeyV1` | artifacts/jns/stage1/scriptc/scriptc_runtime.ts:185-194 | class byte 1, little-endian u16 namespace length, namespace, canonical key; longer namespaces fail |
| `ScriptRuntime.Runtime.Abort` | artifacts/jns/stage1/scriptc/scriptc_runtime.ts:196-203 | whole codes 1 to 0xffffff become the pending abort, every other number the invalid-view failure |
| `Overlay.DiffFitsU32` | artifacts/jns/stage1/scriptc/scriptc_runtime.ts:222-232 | in every reachable state the diff length stays below 2^32 |
| `ScriptRuntime.Runtime.EncodeApplied` | artifacts/jns/stage1/scriptc/scriptc_runtime.ts:222-250 | the buffer of precomputed size is filled exactly with the printed overlay, and its length field fits |
| `ScriptRuntime.Runtime.WriteEntries` | artifacts/jns/stage1/scriptc/scriptc_runtime.ts:234-248 | the writing loop appends exactly the encoding of the overlay entries to what was written |
| `ScriptRuntime.Runtime.CaughtResult` | artifacts/jns/stage1/scriptc/scriptc_runtime.ts:256-261 | prints the pending need-state, abort or fatal outcome, and the uncaught code when none is pending |
| `ScriptResult.ParsePrinted` | artifacts/jns/stage1/scriptc/scriptc_runtime.ts:205-250 | the host's strict decoder reads every printed outcome back, an applied diff included when it is within the view bounds |
| `ScriptResult.DiffIsOverride` | artifacts/jns/stage1/scriptc/scriptc_runtime.ts:222-250 | applying a printed overlay to the map of present base values gives the overridden map |
| `ScriptResult.DiffGivesVisible` | artifacts/jns/stage1/scriptc/scriptc_runtime.ts:134-146 | applying the diff to what the base shows gives exactly what the script sees |
| `PartialViews.LargerViewSameOutcome` | artifacts/jns/stage1/scriptc/scriptc_runtime.ts:134-183 | for every finite program of gets, sets and deletes: a run over a view either has the outcome of the run over any larger view, or stops at a key the view lacks |
| `PartialViews.PartialViewsAreSound` | artifacts/jns/stage1/scriptc/scriptc_runtime.ts:134-183 | the same for the entry's bytes: byte-identical, or a request for a key absent from the view |
| `PartialViews.ViewRunAgainstFull` | artifacts/jns/stage1/scriptc/scriptc_runtime.ts:134-183 | a run over a consistent view ends as the run over the full state does, or asks for a missing key that the full run touches |
| `PartialViews.OneTurn` | artifacts/jns/stage1/scriptc/scriptc_runtime.ts:256-261 | one rerun answers with the full run's bytes or names a touched key the view lacks |
| `PartialViews.AddAndRerun` | artifacts/jns/stage1/scriptc/scriptc_runtime.ts:134-183 | the add-the-key-and-rerun loop terminates, its measure the touched keys not yet in the view, in the full run's bytes |
| `ScriptDriver.RunEntry` | artifacts/jns/stage1/scriptc/scriptc_runtime.ts:252-261 | for any script, the entry built from the runtime's operations returns exactly the bytes of that script's run over its view |
| `JamCodec.NaturalRoundTrip` | artifacts/jns/stage1/scriptc/scriptc_service.transformed.ts:16-17 | for all v below 2^32 and any suffix, decoding the encoding followed by the suffix gives v and leaves the suffix |
| `JamCodec.AcceptedIsWide` | artifacts/jns/stage1/scriptc/scriptc_service.transformed.ts:16 | every accepted string is the announced-width form of its value, followed by the rest |
| `JamCodec.EncodingIsShortest` | artifacts/jns/stage1/scriptc/scriptc_service.transformed.ts:17 | any other accepted form of the same number is strictly longer |
| `NumbersInBytes.ShortForms` | artifacts/jns/stage1/scriptc/scriptc_service.transformed.ts:17 | below 128 a number is its own byte, below 2^14 it is a byte from 0x80 and the low byte |
| `NumbersInBytes.MiddleForms` | artifacts/jns/stage1/scriptc/scriptc_service.transformed.ts:17 | below 2^21 and 2^28 it is a byte from 0xC0 or 0xE0 and two or three low bytes, lowest first |
| `NumbersInBytes.LongForm` | artifacts/jns/stage1/scriptc/scriptc_service.transformed.ts:17 | every other u32 is 0xF0 and its four bytes, lowest first |
| `NaturalCodecs.JamCursor.JamTake` | artifacts/jns/stage1/scriptc/scriptc_service.transformed.ts:8 | takes exactly the next bytes and advances, or throws when too few are left |
| `NaturalCodecs.JamCursor.JamU32` | artifacts/jns/stage1/scriptc/scriptc_service.transformed.ts:11 | reads a little-endian u32 and advances by four |
| `NaturalCodecs.JamCursor.JamNatural` | artifacts/jns/stage1/scriptc/scriptc_service.transformed.ts:16 | throws exactly where the grammar fails, leaves the same rest, and returns the double nearest to the value |
| `NaturalCodecs.DoubleValue` | artifacts/jns/stage1/scriptc/scriptc_service.transformed.ts:16 | the multiplier loop, each sum and product rounded to a double, yields the double nearest to the exact value |
| `Doubles.NearestSpelled` | artifacts/jns/stage1/scriptc/scriptc_service.transformed.ts:16 | rounding to a spacing gives a multiple of it, none is nearer, and of two as near it is the even one |
| `NaturalCodecs.JamEncodeNatural` | artifacts/jns/stage1/scriptc/scriptc_service.transformed.ts:17 | the threshold, divisor and bit-operation loops produce the grammar's encoding for every whole number below 2^32 and throw on every other number |
| `NaturalCodecs.ReadFnEncode` | artifacts/jns/stage1/generated_service.rs:231-242 | the bitwise u64 decoder accepts the same strings, returns the exact value and consumes the same bytes |
| `NaturalCodecs.DecodersAgree` | artifacts/jns/stage1/generated_service.rs:231-242 | the two decoders agree on the value if and only if it is a double, which every number below 2^53 is |
| `NaturalCodecs.DecodersDifferBeyondDoubles` | artifacts/jns/stage1/scriptc/scriptc_service.transformed.ts:16 | the eight bytes of 2^53 + 1 decode to 2^53 in the script and to 2^53 + 1 in the service |
| `NaturalCodecs.DecodeAccumulateInitInput` | artifacts/jns/stage1/generated_service.rs:244-251 | three naturals and nothing behind them, or failure |
| `NaturalCodecs.InitInput` | artifacts/jns/stage1/generated_service.rs:244-251 | three naturals of any widths come out in the order they were written in, the tick first, and none when a byte follows them |
| `Names.RecordRoundTrip` | artifacts/jns/stage1/scriptc/scriptc_service.transformed.ts:48-49 | decoding an encoded owner and service id gives them back |
| `Names.KeyLayout` | artifacts/jns/stage1/scriptc/scriptc_service.transformed.ts:19-50 | a name's application key is class 1, the jns.names/v1 namespace and the length-prefixed name, and the name can be read off it |
| `NamesService.CheckName` | artifacts/jns/stage1/scriptc/scriptc_service.transformed.ts:21-35 | true exactly for 3 to 32 bytes, each in the text abcdefghijklmnopqrstuvwxyz0123456789-, without a hyphen at either end |
| `NamesService.SameAddress` | artifacts/jns/stage1/scriptc/scriptc_service.transformed.ts:37-45 | true exactly for two equal 32-byte addresses |
| `NamesService.JamConcat` | artifacts/jns/stage1/scriptc/scriptc_service.transformed.ts:15 | the copying loop concatenates all parts in order |
| `NamesService.EncodeNamesValue` | artifacts/jns/stage1/scriptc/scriptc_service.transformed.ts:49 | owner then little-endian service id, or a throw for a wrong length or range |
| `NamesService.DecodeNamesValue` | artifacts/jns/stage1/scriptc/scriptc_service.transformed.ts:48 | accepts exactly 36 bytes and returns owner and service id |
| `NamesService.DecodeActionInput` | artifacts/jns/stage1/scriptc/scriptc_service.transformed.ts:58-71 | accepts exactly a length of at most 32, that many name bytes and a u32, with nothing behind |
| `NamesService.KeyNames` | artifacts/jns/stage1/scriptc/scriptc_service.transformed.ts:50 | the key of a bounded name, without touching the pending failure |
| `NamesService.NamesHas` | artifacts/jns/stage1/scriptc/scriptc_service.transformed.ts:53 | presence of the record behind the name's key, or a request for the key |
| `NamesService.NamesGet` | artifacts/jns/stage1/scriptc/scriptc_service.transformed.ts:52 | the decoded record behind the name's key, none when absent, a throw when it does not decode, or a request for the key |
| `NamesService.NamesSet` | artifacts/jns/stage1/scriptc/scriptc_service.transformed.ts:54 | writes the encoded record at the name's key with the runtime's outcomes |
| `NamesService.ExecuteClaim` | artifacts/jns/stage1/scriptc/scriptc_service.transformed.ts:59-68 | leaves the outcome of the claim script's run: aborts 1 and 2, the request for the key, or the written record |
| `NamesService.ExecuteBind` | artifacts/jns/stage1/scriptc/scriptc_service.transformed.ts:72-84 | leaves the outcome of the bind script's run: aborts 1, 3 and 4, or the record with its old owner and the new service id |
| `NamesService.ActionClaim` | artifacts/jns/stage1/scriptc/scriptc_service.transformed.ts:69 | for any payload, sender and view bytes, the returned bytes are those of the claim script's run |
| `NamesService.ActionBind` | artifacts/jns/stage1/scriptc/scriptc_service.transformed.ts:85 | for any payload, sender and view bytes, the returned bytes are those of the bind script's run |
| `Registry.NameKeyInjective` | artifacts/jns/stage1/scriptc/scriptc_service.transformed.ts:50 | different names have different keys |
| `Registry.NameKeyAllowed` | artifacts/jns/stage1/generated_service.rs:39-44 | every name's key passes the namespace guard |
| `Registry.StoreIsUpdate` | services/jns/src/service.ts:20-24 | storing a record under a name's key is updating the name-to-record map at that name |
| `Registry.ClaimRefines` | services/jns/src/service.ts:49-63 | on any view of a well-formed state the bytes of claim are read by the host as an outcome that matches the abstract claim: applied with the updated map, the same refusal code, a request for a key the view lacks, or a fatal failure on an unreadable payload |
| `Registry.BindRefines` | services/jns/src/service.ts:65-83 | the same for bind |
| `NamesInBytes.ClaimAnswers` | artifacts/jns/stage1/scriptc/scriptc_service.transformed.ts:58-69 | claim, from payload bytes to result bytes: a name with any other byte, length or outer hyphen is aborted with 1, a key the view lacks is asked for, a taken name is aborted with 2, and a free one gives the applied diff of exactly that record |
| `NamesInBytes.BindAnswers` | artifacts/jns/stage1/scriptc/scriptc_service.transformed.ts:71-85 | bind, the same: 1 for a bad name, a request for a key the view lacks, 3 for an unclaimed name |
| `NamesInBytes.BindAnswersOwner` | artifacts/jns/stage1/scriptc/scriptc_service.transformed.ts:75-85 | on a claimed name: 4 for any other sender, the diff that changes the service id alone for the owner, and the uncaught failure on a broken record |
| `NamesInBytes.FatalAnswers` | artifacts/jns/stage1/scriptc/scriptc_service.transformed.ts:69-85 | both actions: the invalid-view code exactly for a view that does not parse, else the uncaught code for a sender that is not 32 bytes or a payload that does not decode |
| `NamesInBytes.ReadableInput` | artifacts/jns/stage1/scriptc/scriptc_service.transformed.ts:58-71 | behind a one-byte length, a payload decodes exactly when the length is at most 32 and that many bytes and four more follow |
| `ServiceHost.ChangesGoThrough` | artifacts/jns/stage1/generated_service.rs:51-60 | a diff goes through exactly when every key is in the namespace and known, and then it has been applied whole |
| `ServiceHost.ViewUnique` | artifacts/jns/stage1/generated_service.rs:75 | a state has at most one view for its known keys |
| `ServiceHost.ExecutionContext.ApplyScriptResult` | artifacts/jns/stage1/generated_service.rs:46-65 | state and answer after the loop are those of applying the changes in order up to the first refused one |
| `ServiceHost.ExecutionContext.ExecuteScriptc` | artifacts/jns/stage1/generated_service.rs:67-92 | exactly: a backend error when the known keys have no view in bounds, else the run on that view committed whole, or its error with the state as it was at begin_transaction |
| `ServiceHost.ExecutionContext.Execute` | artifacts/jns/stage1/generated_service.rs:97-127 | exactly: the refusals in their order (selector, nonce key, nonce width, nonce value, overflow), else the nonce plus one written and the script executed |
| `ServiceHost.ActionIsStep` | artifacts/jns/stage1/generated_service.rs:97-127 | what execute does exactly is a step: nothing on failure but possibly the consumed nonce, a guarded diff printed for a view of the state on success |
| `HostNonces.RefusedFirst` | artifacts/jns/stage1/generated_service.rs:105-113 | an unknown action, and then an unknown nonce key, are refused before the nonce is read, and change nothing |
| `ServiceHost.EarlierOfBoth` | artifacts/jns/stage1/generated_service.rs:122 | past the nonce check the deadline becomes the earlier of the two, which execute keeps in its state |
| `HostNonces.NewSender` | artifacts/jns/stage1/generated_service.rs:114-125 | without a stored nonce, or with an empty one, an action passes with nonce 0, storing 1 in eight bytes before the script runs, and with any other it is a nonce mismatch that changes nothing |
| `HostNonces.KnownSender` | artifacts/jns/stage1/generated_service.rs:114-125 | with eight stored bytes an action passes exactly with their number, storing the next one before the script runs; the last number of 64 bits is a backend error |
| `HostNonces.OddNonce` | artifacts/jns/stage1/generated_service.rs:114-118 | a stored value of any other length is a backend error that changes nothing |
| `HostNonces.EightBytes` | artifacts/jns/stage1/generated_service.rs:116 | eight bytes are read as the number they spell, the lowest byte first |
| `HostNonces.WrittenEight` | artifacts/jns/stage1/generated_service.rs:123-124 | a number is stored as the eight bytes that spell it |
| `HostNonces.NoncesCount` | artifacts/jns/stage1/generated_service.rs:114-125 | over every run from a state without the sender's nonce key, the i-th nonce the sender consumes is i, counting from 0, and the stored value counts them |
| `HostAnswers.GuardSpelled` | artifacts/jns/stage1/generated_service.rs:39-44 | the host lets a script write exactly the keys of class 1 and namespace jns.names/v1 |
| `HostAnswers.FailuresSpelled` | artifacts/jns/stage1/generated_service.rs:77-87 | an unknown action, and a result that is too long or cannot be read, give their own error and leave the state |
| `HostAnswers.CodesSpelled` | artifacts/jns/stage1/generated_service.rs:60-63 | the bytes of an abort or a fatal result give an application failure with their code and leave the state |
| `HostAnswers.MissingSpelled` | artifacts/jns/stage1/generated_service.rs:62 | the bytes of a request give the missing key and leave the state |
| `HostAnswers.DiffSpelled` | artifacts/jns/stage1/generated_service.rs:51-91 | a diff is applied whole when every key is allowed and known, and otherwise not at all |
| `HostAnswers.RefusalSpelled` | artifacts/jns/stage1/generated_service.rs:51-58 | the first key of a diff that is not allowed, or not known, decides the error |
| `HostRuns.StepNonces` | artifacts/jns/stage1/generated_service.rs:112-125 | an action moves only its sender's nonce, by one or not at all, and succeeds only at the expected nonce |
| `HostRuns.NonceNeverFalls` | artifacts/jns/stage1/generated_service.rs:112-125 | over every run a sender's expected nonce never goes down |
| `HostRuns.SuccessfulNoncesIncrease` | artifacts/jns/stage1/generated_service.rs:112-125 | over every run a sender's successful actions carry strictly increasing nonces, so no nonce succeeds twice |
| `HostRuns.FailureKeepsApplicationState` | artifacts/jns/stage1/generated_service.rs:73-91 | the failure half of the step relation, that a failed action leaves every application key as it was, which the execution method is proved to meet wherever in the diff it fails |
| `HostRuns.ActionsAreDecided` | artifacts/jns/stage1/generated_service.rs:97-127 | both directions end to end: past the nonce check, the host's answer and the new registry are exactly the abstract service's verdict; an unknown key is asked for and an unreadable payload is a fatal failure |
| `HostRuns.StepRefines` | artifacts/jns/stage1/generated_service.rs:39-127 | a successful step is the abstract update of the registry, a failed one changes nothing in it |
| `HostRuns.RegistryOverRuns` | services/jns/src/service.ts:49-83 | over every run the raw state stays well formed, every stored name is valid, a claimed name never disappears and its owner never changes |
| `Accumulate.AcceptedIsChain` | artifacts/jns/stage1/generated_service.rs:192-204 | the accepted results are exactly the chain: each unexpired with the current root as parent, every other one undecodable, expired or with the wrong parent at its turn; the final root is the one after the chain |
| `Accumulate.ChainUnique` | artifacts/jns/stage1/generated_service.rs:195-204 | there is only one such set of results |
| `Accumulate.ChainAccepts` | artifacts/jns/stage1/generated_service.rs:199-201 | a result is accepted if and only if it decodes, its parent is the root of its moment, and it has no deadline or the tick is not above it |
| `Accumulate.RootMoves` | artifacts/jns/stage1/generated_service.rs:193-202 | the root of a moment starts at the stored one and becomes each accepted result's new root, and no other |
| `Accumulate.CommitOne` | artifacts/jns/stage1/generated_service.rs:192-211 | one decodable result rewrites the cell exactly when it follows the stored root, or the empty state's where none is stored or readable, and is in time |
| `Accumulate.CommitFirst` | artifacts/jns/stage1/generated_service.rs:192-211 | with such a result first the cell is rewritten, and the rest goes on from its new root |
| `Accumulate.CommitSkips` | artifacts/jns/stage1/generated_service.rs:199-201 | any other first result is passed over |
| `Accumulate.CommitNothing` | artifacts/jns/stage1/generated_service.rs:199 | results that do not decode leave the cell |
| `Accumulate.ChainStarts` | artifacts/jns/stage1/generated_service.rs:200-201 | the first accepted result is unexpired and has the stored root as parent |
| `Accumulate.ChainLinks` | artifacts/jns/stage1/generated_service.rs:200-202 | each later accepted result has its predecessor's new root as parent |
| `Accumulate.ChainEnds` | artifacts/jns/stage1/generated_service.rs:202-207 | the final root is the last accepted result's new root |
| `Accumulate.NoneAccepted` | artifacts/jns/stage1/generated_service.rs:193-205 | when nothing is accepted the root is the starting one |
| `Accumulate.BatchesCompose` | artifacts/jns/stage1/generated_service.rs:192-211 | at a fixed tick, accumulating A and then B commits what accumulating A followed by B does |
| `Accumulate.Service.MinijamAccumulate` | artifacts/jns/stage1/generated_service.rs:189-212 | the loop leaves the commitment cell as the chain from the stored root says, and untouched on an undecodable init input or when nothing was accepted |
| `JamFs.NormalizePath` | src/protocols/jamFs.ts:5-18 | the splitting loop with its stack computes the normalization, NUL, escape and length errors included, and terminates |
| `PathAnswers.NormalizeSpelled` | src/protocols/jamFs.ts:5-18 | a NUL is refused, an absolute input stands for itself and any other for what it is below the working directory; the path to its components has at most 512 bytes |
| `PathAnswers.ComponentsSpelled` | src/protocols/jamFs.ts:9-14 | one more component: nothing and a dot stay, two dots go back or fail at the root, a name goes on and has at most 128 bytes |
| `PathAnswers.EmptyInput` | src/protocols/jamFs.ts:7 | an empty input stands for the working directory, seen from /home/user |
| `JamFs.NormalizedIsNormal` | src/protocols/jamFs.ts:5-18 | every accepted result is absolute, has no empty, dot or dot-dot component, and is within both length limits |
| `JamFs.NormalizeIsIdempotent` | src/protocols/jamFs.ts:5-18 | normalizing a normal path returns it if and only if it holds no NUL (which only a working directory can bring in) |
| `JamFs.NulWorkingDirectory` | src/protocols/jamFs.ts:5-18 | the failing input: x under a working directory of a slash and a NUL normalizes to a path that cannot be normalized again |
| `JamFs.JoinParentBasename` | src/protocols/jamFs.ts:20-22 | joining the parent and the basename of a normalized path that holds no NUL and is not the root gives the path back |
| `JamFs.ChunkBytes` | src/protocols/jamFs.ts:24 | for every size from 1, fractions included, the loop cuts at the multiples of the size, one empty chunk for an empty value, and there is a range error below 1 |
| `JamFs.ChunkAt` | src/protocols/jamFs.ts:24 | the i-th chunk runs from i * size to (i + 1) * size, fractions dropped and cut at the end; none is empty, and there is one for each multiple of the size inside the value |
| `JamFs.ReassembleChunks` | src/protocols/jamFs.ts:25 | the copying loop fills a buffer with the chunks in order |
| `JamFs.ReassembleOfChunks` | src/protocols/jamFs.ts:24-25 | reassembling what was cut gives the value back for every chunk size of at least 1, fractions included |
| `DirectoryIndex.DecodeEncoded` | src/runtime/minijam/LiveFileSystemRuntime.ts:14-15 | reading an encoded index of clean names gives the same names, sorted and without repeats |
| `DirectoryIndex.SortUniqueSorts` | src/runtime/minijam/LiveFileSystemRuntime.ts:15 | the encoded names are strictly ascending and are exactly the given ones |
| `DirectoryIndex.DecodeAdded` | src/runtime/minijam/LiveFileSystemRuntime.ts:14-15 | after a name is added, whatever it holds, the index shows the old names and the trimmed lines of the new one, and nothing else |
| `IndexAnswers.WhiteSpelled` | src/runtime/minijam/LiveFileSystemRuntime.ts:10 | what is trimmed is exactly the white space and line terminators of the language, by code point, in UTF-8 |
| `IndexAnswers.TrimSpelled` | src/runtime/minijam/LiveFileSystemRuntime.ts:10 | trimming takes white space off the two ends and nothing else |
| `IndexAnswers.TrimIsBare` | src/runtime/minijam/LiveFileSystemRuntime.ts:10 | and leaves none there |
| `IndexAnswers.IndexSpelled` | src/runtime/minijam/LiveFileSystemRuntime.ts:15 | an index of clean names in order is the names on a line each, or fails above 4096 bytes |
| `ComputerService.Service.Initialize` | services/computer/src/service.ts:100-129 | creates the profile and the root directory with an empty index once; any repeat or other key aborts and changes nothing |
| `ComputerService.Service.RequireSender` | services/computer/src/service.ts:71-93 | passes if and only if the key is the root key, there is an owner, and owner and sender are the same 32 bytes; otherwise 1, 2 or 3, in that order |
| `ComputerService.Service.WriteFile` | services/computer/src/service.ts:276-287 | stores the file node and the parent's index, or aborts and changes nothing |
| `ComputerService.Service.Mkdir` | services/computer/src/service.ts:289-301 | stores the directory node, its empty index and the parent's index, or aborts and changes nothing |
| `ComputerService.Service.RemoveNode` | services/computer/src/service.ts:303-314 | marks a live non-root node removed and stores its parent's index, or aborts and changes nothing |
| `ComputerService.Service.RenameFile` | services/computer/src/service.ts:316-330 | stores the node at its new path, marks the old one removed and stores both indexes in that order, or aborts and changes nothing |
| `ComputerService.Service.PublishSite` | services/computer/src/service.ts:239-251 | replaces the manifest, or aborts and changes nothing |
| `ComputerAnswers.RefusedWrites` | services/computer/src/service.ts:239-314 | a write, mkdir, remove or publish by anyone but the owner, with any key but the root key, or before there is an owner, aborts with 3, 1 or 2 |
| `ComputerAnswers.RefusedRenames` | services/computer/src/service.ts:316-320 | so does a rename |
| `ComputerAnswers.AddingCodes` | services/computer/src/service.ts:276-297 | the owner's write or mkdir aborts with 8 unless the path is below the root, then with 9 unless the parent is a live directory, and else applies |
| `ComputerAnswers.RemovingCodes` | services/computer/src/service.ts:303-309 | the owner's remove applies to a live node below the root and else aborts with 6 |
| `ComputerAnswers.RenamingCodes` | services/computer/src/service.ts:316-324 | the owner's rename aborts with 6 unless the source is a live file of that parent, then with 9 unless the new parent is a live directory, and else applies |
| `ComputerAnswers.InitializedOnce` | services/computer/src/service.ts:100-129 | initialize applies exactly with the root key and before there is an owner, and else aborts with 1 or 4 |
| `ComputerAnswers.InitializedSeen` | services/computer/src/service.ts:95-129 | it makes the sender the owner and the root an empty directory, seen by stat with its type |
| `LiveFileSystem.Client.MakeDirectory` | src/runtime/minijam/LiveFileSystemRuntime.ts:30 | the client's checks, the index it computes and the action: the service state becomes the step's, and success is reported exactly when the step succeeds |
| `LiveFileSystem.Client.WriteContent` | src/runtime/minijam/LiveFileSystemRuntime.ts:28 | the same for write |
| `LiveFileSystem.Client.RemoveEntry` | src/runtime/minijam/LiveFileSystemRuntime.ts:31 | the same for remove |
| `LiveFileSystem.Client.RenameEntry` | src/runtime/minijam/LiveFileSystemRuntime.ts:32 | the same for rename |
| `ComputerAnswers.StrangersChangeNothing` | services/computer/src/service.ts:75-93 | no operation by anyone but the owner goes through, and none changes anything |
| `ComputerAnswers.NoPathNoChange` | src/runtime/minijam/LiveFileSystemRuntime.ts:28-32 | an operation on a path that does not normalize changes nothing |
| `ComputerAnswers.StatSpelled` | src/runtime/minijam/LiveFileSystemRuntime.ts:23-24 | stat throws exactly where the path does not normalize, and finds exactly the nodes that are there and not removed |
| `ComputerAnswers.NulsDropped` | src/runtime/minijam/LiveFileSystemRuntime.ts:10 | the client reads a stored text without its NULs, trimmed |
| `ComputerAnswers.MkdirGoes` | src/runtime/minijam/LiveFileSystemRuntime.ts:30 | on tidy state a mkdir goes through exactly for the owner, where nothing is seen, in a directory that is seen, with a path of at most 256 bytes and an index that fits |
| `ComputerAnswers.WriteGoes` | src/runtime/minijam/LiveFileSystemRuntime.ts:28 | a write exactly for the owner, below the root, in a directory that is seen, with a path of at most 256 and a MIME type of at most 96 bytes and an index that fits |
| `ComputerAnswers.RemoveGoes` | src/runtime/minijam/LiveFileSystemRuntime.ts:31 | a remove exactly for the owner, of what is seen below the root; a directory only when it lists nothing or the call is recursive |
| `ComputerAnswers.RenameGoes` | src/runtime/minijam/LiveFileSystemRuntime.ts:32 | a rename exactly for the owner, of a file that is seen, into a directory that is seen, with paths and indexes that fit |
| `ComputerAnswers.MkdirSeen` | src/runtime/minijam/LiveFileSystemRuntime.ts:24-30 | after a mkdir stat shows an empty directory with its type and the call's time, and nothing else changed |
| `ComputerAnswers.WriteSeen` | src/runtime/minijam/LiveFileSystemRuntime.ts:24-28 | after a write stat shows a file with the call's size, type and time, its content root is stored, and nothing else changed |
| `ComputerAnswers.RemoveSeen` | src/runtime/minijam/LiveFileSystemRuntime.ts:24-31 | after a remove stat shows nothing there, and nothing else changed |
| `ComputerAnswers.RenameSeen` | src/runtime/minijam/LiveFileSystemRuntime.ts:24-32 | after a rename stat shows the file at its new path alone, as it was but for the time, with its content root, and nothing else changed |
| `FsSound.MovedSound` | src/runtime/minijam/LiveFileSystemRuntime.ts:32 | a rename that goes through keeps every listed name live if and only if each name the index shows for the new one has the moved node or another live node, and not the old path of the moved file |
| `FsInvariant.MoveComplete` | src/runtime/minijam/LiveFileSystemRuntime.ts:32 | a rename keeps every live node listed if and only if nothing else is listed under the target and it unlists no other node of the target directory |
| `FsInvariant.AddFileComplete` | services/computer/src/service.ts:276-287 | writing a file keeps completeness if and only if no children are listed under it |
| `FsInvariant.DropComplete` | services/computer/src/service.ts:303-314 | removing a node keeps completeness if and only if nothing is listed under it |
| `FsSound.StepSound` | src/runtime/minijam/LiveFileSystemRuntime.ts:28-32 | over every operation, whatever names it brings in: index soundness survives if and only if the operation fails, or each name that the index will show for the added one is that of its own node or of a live one, and not of the file a rename takes away |
| `FsRuns.AllowedNamesLive` | src/runtime/minijam/LiveFileSystemRuntime.ts:28-32 | with clean names (one line, without any character around it that trim strips, ASCII or not) that condition says exactly that the operation is no rename onto itself |
| `FsRuns.StepTidy` | src/runtime/minijam/LiveFileSystemRuntime.ts:28-32 | an operation with clean names that is no rename onto itself keeps soundness and the whole shape: every node at its path under its parent, every index of clean names |
| `FsComplete.StepComplete` | src/runtime/minijam/LiveFileSystemRuntime.ts:28-32 | over every operation, whatever names it brings in and whatever it renames: completeness survives if and only if the operation fails or passes a guard that the caller can check on the names and the listings |
| `FsComplete.UncleanNeverComplete` | src/runtime/minijam/LiveFileSystemRuntime.ts:28-32 | an operation that goes through under a name with a newline, or with something around it that trim strips, always leaves a live node unlisted (a rename onto itself or to the root aside) |
| `FsRuns.OrdinaryOperationsKeepComplete` | src/runtime/minijam/LiveFileSystemRuntime.ts:28-32 | an ordinary operation passes that guard: a directory made, a non-recursive remove, or a write or rename that targets no live directory and unlists nothing |
| `FsRuns.RemoveOnlyEmpty` | src/runtime/minijam/LiveFileSystemRuntime.ts:31 | a non-recursive remove goes through only where nothing is listed |
| `FsRuns.ListIsFaithful` | src/runtime/minijam/LiveFileSystemRuntime.ts:24-25 | with sound indexes list returns one entry per listed name, each the live node at the child's path, and meets no dangling entry |
| `FsRuns.InitialIsGood` | services/computer/src/service.ts:95-129 | the initial state is well shaped, sound and complete |
| `FsRuns.RunsStaySound` | src/runtime/minijam/LiveFileSystemRuntime.ts:28-32 | over every run of operations with clean names and without a rename onto itself indexes stay sound: every listed name is a live node whose path and parent are right |
| `FsComplete.RunsStayComplete` | src/runtime/minijam/LiveFileSystemRuntime.ts:28-32 | over every run without a rename onto itself or to the root, whatever names come in: every live node stays listed in its live parent directory if and only if every operation passes the guard |
| `FsRuns.ComputersAreSound` | services/computer/src/service.ts:100-330 | a computer used only through operations with clean names and without a rename onto itself has sound indexes |
| `FsRuns.ComputersAreComplete` | services/computer/src/service.ts:100-330 | a computer used only through such operations that are also ordinary lists every live node in its live parent, from its first state to its last |
| `FsRuns.RunsAreSoundExactly` | src/runtime/minijam/LiveFileSystemRuntime.ts:28-32 | over every run of any operations the indexes are sound throughout if and only if the names each operation brings in are live when it is made |
| `FsRuns.ComputersAreSoundExactly` | services/computer/src/service.ts:100-330 | the same of every run from the initial state |
| `FsFailures.FirstMkdirSound` | src/runtime/minijam/LiveFileSystemRuntime.ts:30 | the first directory made on a new computer keeps soundness if and only if the index shows its name as no other |
| `FsFailures.InitialIsFresh` | services/computer/src/service.ts:100-129 | a new computer is such a one: only the root, with an empty index |
| `FsFailures.PaddedMkdirBreaks` | src/runtime/minijam/LiveFileSystemRuntime.ts:30 | the failing input: a directory made under a clean name with a character in front that trim strips, as a space or U+00A0, goes through and is listed under a name that has no node |
| `FsFailures.SelfRenameBreaks` | src/runtime/minijam/LiveFileSystemRuntime.ts:32 | a rename onto itself under a clean name that goes through always breaks soundness |
| `FsFailures.WrittenThenRenamed` | src/runtime/minijam/LiveFileSystemRuntime.ts:28-32 | the failing input: a file written under any clean name and renamed onto itself, both going through, is listed and gone |
| `FsFailures.RootListsItself` | src/runtime/minijam/LiveFileSystemRuntime.ts:24-30 | a directory made under white space and a dot makes the root directory list itself as its own subdirectory |
| `FsFailures.DotFolds` | src/protocols/jamFs.ts:5-18 | the dot is a name that an index can hold and that normalizes away |
| `Publishing.VisitsReachableFiles` | src/runtime/minijam/LiveFileSystemRuntime.ts:36 | the walk visits a path if and only if it is a live file reachable from the directory through listings |
| `Publishing.VisitedOnce` | src/runtime/minijam/LiveFileSystemRuntime.ts:36 | no file is visited twice |
| `Publishing.Walk` | src/runtime/minijam/LiveFileSystemRuntime.ts:36 | the recursive loop adds one row for each visited file in order, and terminates because paths grow and are bounded |
| `Publishing.RowsOfVisited` | src/runtime/minijam/LiveFileSystemRuntime.ts:36 | each row is the visited file's, under its path relative to the published directory |
| `SiteManifest.SortRowsKeeps` | src/runtime/minijam/LiveFileSystemRuntime.ts:37 | sorting loses and invents no row |
| `SiteManifest.SortRowsSorts` | src/runtime/minijam/LiveFileSystemRuntime.ts:37 | with a consistent comparison the rows come out in its order |
| `SiteManifest.ManifestRoundTrip` | src/runtime/minijam/LiveFileSystemRuntime.ts:38-41 | rows without bars and newlines read back from the manifest text, sizes included |
| `SiteManifest.VisitedRowSeparable` | src/runtime/minijam/LiveFileSystemRuntime.ts:36-38 | a visited row needs only that its path and MIME type hold no bar and its MIME type no newline |
| `SiteManifest.Publish` | src/runtime/minijam/LiveFileSystemRuntime.ts:33-40 | exactly: the sorted rows go into the manifest, or it throws (bad path, missing content root, no index page, too large, not the owner) and changes nothing |
| `SiteManifest.PublishedIsRead` | src/runtime/minijam/LiveFileSystemRuntime.ts:33-41 | after a publish of separable rows, manifest returns the published list |
| `SiteManifest.PublishedRows` | src/runtime/minijam/LiveFileSystemRuntime.ts:36-39 | what is published has one row for each visited file |
| `ComputerAnswers.StrangersPublishNothing` | services/computer/src/service.ts:239-241 | a publish by anyone but the owner returns nothing and leaves the manifest |
| `PublishAnswers.PublishGoes` | src/runtime/minijam/LiveFileSystemRuntime.ts:33-39 | a publish goes through exactly for the owner, when every file has its content root, one is /index.html and the manifest has at most 4096 bytes; then it returns a permutation of the rows and only the manifest changes, else nothing |
| `PublishAnswers.SiteRowsExactly` | src/runtime/minijam/LiveFileSystemRuntime.ts:36 | the walk gives rows exactly when every live file reachable has a content root of 32 bytes |
| `PublishAnswers.RowSpelled` | src/runtime/minijam/LiveFileSystemRuntime.ts:36 | a row has the path below the site's directory, the type or its default, the size, and 0x with the root in hexadecimal |
| `PublishAnswers.LineSpelled` | src/runtime/minijam/LiveFileSystemRuntime.ts:38 | a line of the manifest is path, type, size and root with bars between them |
| `PublishAnswers.LineRead` | src/runtime/minijam/LiveFileSystemRuntime.ts:41 | a line is read as a row exactly when it has four fields and digits for its size |
| `PublishAnswers.ManifestSpelled` | src/runtime/minijam/LiveFileSystemRuntime.ts:41 | nothing is read exactly when nothing is published |
| `MockDoom.SessionRecord.SubmitInput` | src/runtime/doom/MockDoomRuntime.ts:37-48 | the batch loop leaves the schedule and error of the reference, accepted inputs before a refused one included |
| `MockDoom.SessionRecord.ExecuteTicks` | src/runtime/doom/MockDoomRuntime.ts:50-59 | runs exactly the asked number of ticks, or refuses and changes nothing |
| `MockDoom.SessionRecord.Step` | src/runtime/doom/MockDoomRuntime.ts:90-112 | one tick applies the scheduled actions in order, then the use bonus and the damage draw |
| `MockDoom.SessionRecord.FinishSession` | src/runtime/doom/MockDoomRuntime.ts:63-74 | finishes once |
| `MockAnswers.StartSpelled` | src/runtime/doom/MockDoomRuntime.ts:12-16 | a new session has 100 health, 50 ammunition, an empty schedule and nothing else |
| `MockAnswers.TickSpelled` | src/runtime/doom/MockDoomRuntime.ts:90-112 | a tick in closed form, whatever the order of its actions: moves by their counts, shots up to the ammunition, all hits or none by one draw, a point of health a use up to 100, 1000 a hit and 25 for any use, and the damage draw |
| `MockAnswers.SubmissionSpelled` | src/runtime/doom/MockDoomRuntime.ts:37-48 | a batch is scheduled up to its first input whose tick is not whole, not above the one before, before the batch's first or not to come, or whose action is unsupported; that input decides the error, and every other tick keeps its actions |
| `MockAnswers.CallsSpelled` | src/runtime/doom/MockDoomRuntime.ts:37-74 | a finished session refuses every call and keeps its state, and each call's number must be whole and not negative |
| `MockDoom.PlayIsFold` | src/runtime/doom/MockDoomRuntime.ts:37-59 | after any mix of submissions, executions and a finish the state is one fold of the tick function over the final schedule |
| `MockDoom.InterleavingIndependence` | src/runtime/doom/MockDoomRuntime.ts:37-74 | two sessions that end with the same schedule and tick have played the same game, however their calls interleaved, and are equal if and only if both or neither is finished |
| `MockDoom.TicksAdd` | src/runtime/doom/MockDoomRuntime.ts:50-59 | executing a and then b ticks is executing a + b |
| `MockDoom.SessionsAreBalanced` | src/runtime/doom/MockDoomRuntime.ts:90-112 | at every point score is 1000 a kill plus 25 a tick with use, kills are at most the ammunition spent, health is between 0 and 100 |
| `CText.StrStr` | services/doom/src/service.c:18 | the nested scan returns the first position at which the needle occurs, or none |
| `TextAnswers.FirstOccurrence` | services/doom/src/service.c:18 | what the search returns is an occurrence, none is earlier, and with none returned there is none |
| `CText.SearchSkips` | services/doom/src/service.c:18 | a search for a quoted name runs past any text whose quoted pieces lack it |
| `CText.FoundAfter` | services/doom/src/service.c:18 | a quoted name is found at its first occurrence, and what follows it is at hand |
| `CText.SearchAcross` | services/doom/src/service.c:18 | a quoted name is found inside a text that ends with a quote, or behind that text, never across its closing quote |
| `CText.NumberStops` | services/doom/src/service.c:34-38 | a number lookup reads nothing from behind a character that is no separator and no digit |
| `CText.ScanNumber` | services/doom/src/service.c:34-38 | the lookup reads the digits behind the first quoted name in 32-bit arithmetic, or returns the fallback |
| `CText.ScanString` | services/doom/src/service.c:24-32 | the lookup copies the quoted text behind the first quoted name, dropping escapes, or fails on a missing quote or a full buffer |
| `TextAnswers.NumberSpelled` | services/doom/src/service.c:34-38 | a number field is the digits behind the quoted name and a gap of colons, spaces and tabs, as a number modulo 2^32, and the fallback without digits |
| `TextAnswers.NumberFallback` | services/doom/src/service.c:34-36 | and the fallback when the quoted name does not occur before a NUL |
| `TextAnswers.StringSpelled` | services/doom/src/service.c:24-32 | a text field is the text whose escaped form stands between quotes behind the name and the gap, if it is shorter than the buffer |
| `TextAnswers.StringFallback` | services/doom/src/service.c:24-27 | and empty when the quoted name does not occur before a NUL |
| `CText.ReadPrinted` | services/doom/src/service.c:34-41 | reading the decimal digits of any u32 gives it back, whatever follows |
| `CText.UnquoteExact` | services/doom/src/service.c:30-31 | a quoted text reads back unchanged if and only if it holds no quote and no backslash |
| `CText.AppendText` | services/doom/src/service.c:40 | appends the whole text and a NUL, or nothing with the capacity as the new offset |
| `CText.AppendU32` | services/doom/src/service.c:41 | appends the decimal digits, produced in reverse, or nothing with the capacity as the new offset |
| `DoomState.Hex32` | services/doom/src/service.c:42 | two lower-case hexadecimal characters a byte and a NUL |
| `Hexadecimal.HexSpelled` | services/doom/src/service.c:42 | each byte is two digits or lower-case letters, the high half first |
| `DoomState.PrintState` | services/doom/src/service.c:65-67 | the state text of every session fits the buffer and is printed whole |
| `DoomState.FieldReads` | services/doom/src/service.c:61-63 | for every id without a NUL: each number reads back unless the quoted id holds the field's quoted name, and then what follows that name inside the id is read |
| `DoomState.StateRoundTrip` | services/doom/src/service.c:61-67 | for every id without a NUL and all u32 values, loading what was saved returns each of the six values that the quoted id does not itself hold a name for |
| `DoomState.FaithfulSessions` | services/doom/src/service.c:61-67 | for every id without a NUL: all its games survive saving if and only if the quoted id holds none of the quoted names tick, health, ammo, kills, score and completed with true behind it |
| `DoomState.InjectedField` | services/doom/src/service.c:61-67 | the failing input: an id that closes its own quote and prints a field gives all its games that number |
| `DoomState.NamedSession` | services/doom/src/service.c:61-67 | the failing input: a session called like a field reads the fallback for it |
| `DoomService.SessionKeysDiffer` | services/doom/src/service.c:43 | state, metadata, input and result keys of any two sessions never coincide |
| `DoomSpelled.KeysSpelled` | services/doom/src/service.c:43-44 | the five keys, letter by letter |
| `DoomSpelled.StateSpelled` | services/doom/src/service.c:65-67 | the stored game's text, letter by letter |
| `DoomSpelled.MetaSpelled` | services/doom/src/service.c:71 | the stored metadata's text |
| `DoomSpelled.ResultSpelled` | services/doom/src/service.c:76 | the stored result's text |
| `DoomService.BestKeyDiffers` | services/doom/src/service.c:76 | an account's best-score key is no session's key |
| `DoomService.Service.LoadState` | services/doom/src/service.c:61-63 | returns the stored game, or none when nothing readable is stored |
| `DoomService.Service.SaveState` | services/doom/src/service.c:65-67 | stores the state text under the session's key and changes nothing else |
| `DoomService.Service.OwnerMatches` | services/doom/src/service.c:50-55 | true exactly when the stored metadata names the account |
| `DoomService.Service.RunTicks` | services/doom/src/service.c:75 | the tick loop plays the asked number of ticks under the controls held |
| `DoomService.Service.Finish` | services/doom/src/service.c:76 | stores the completed state and the result, and the result as best exactly when it is higher or the first |
| `DoomService.Service.Dispatch` | services/doom/src/service.c:69-77 | for any payload bytes the new storage is that of the request's event |
| `DoomSpelled.RequestsSpelled` | services/doom/src/service.c:70 | a request is served exactly when it is version 1 and has an operation, a session and an account shorter than their buffers |
| `DoomSpelled.CreateMakesNewGame` | services/doom/src/service.c:71 | a create request stores a new game with 100 health and 50 ammunition for a session that is not there, and changes nothing for one that is |
| `DoomSpelled.OnlyOwnersAct` | services/doom/src/service.c:72-73 | any other request changes nothing unless its account owns the session and the session is there |
| `DoomSpelled.ExecutionSpelled` | services/doom/src/service.c:75 | an execution plays the ticks its request gives, none when it names none, on the stored game |
| `DoomSpelled.RequestedSpelled` | services/doom/src/service.c:71 | metadata is stored for a request with a map and a difficulty shorter than their buffers, with ruleset 1 by default |
| `DoomSpelled.ReadMetaSpelled` | services/doom/src/service.c:76 | a finish reads the texts and the ruleset of the stored metadata, ruleset 1 by default |
| `DoomInputs.ExecuteUsesInput` | services/doom/src/service.c:75 | after an executed event the session has no queued input |
| `DoomInputs.EventInput` | services/doom/src/service.c:69-76 | queueing stores the session's input, executing drops it, and no other event of any session touches it |
| `DoomInputs.ExecutedControls` | services/doom/src/service.c:74-75 | over every run from an empty storage the controls of each executed event are exactly the words in the session's last input queued since its previous execution, before any NUL and below 8192 bytes, and none without one |
| `DoomInputs.SecondExecuteIsIdle` | services/doom/src/service.c:75 | so executing twice without an input between holds no control the second time |
| `DoomSpelled.TickSpelled` | services/doom/src/service.c:75 | one tick in 32-bit arithmetic: the count, a point forward, a point of health backward, a shot for 1000, a point of health a use below 100 |
| `DoomSpelled.PlaySpelled` | services/doom/src/service.c:75 | a whole execution in closed form: ticks, ammunition and kills, the shots ending with the ammunition |
| `DoomSpelled.ScoreSpelled` | services/doom/src/service.c:75 | its score: 1 a forward tick and 1000 a shot, modulo 2^32 |
| `DoomSpelled.HealthSpelled` | services/doom/src/service.c:75 | its health, which stops at 0 and at 100; backward and use together cancel out |
| `DoomRuns.StepTracks` | services/doom/src/service.c:69-77 | for every id: a request changes a session's loaded game exactly as its event says, through one save and load, and no other session's |
| `DoomRuns.LoadedIsKept` | services/doom/src/service.c:61-77 | over every run a loaded game holds exactly the values that its id would give again |
| `DoomRuns.PlayConserves` | services/doom/src/service.c:75 | ticks keep ammo + kills = 50, health at most 100, and the tick and score accounts modulo 2^32 |
| `DoomRuns.GamesAreConserved` | services/doom/src/service.c:69-77 | over every run of arbitrary requests, for an id whose quoted text holds none of the quoted names tick, ammo, kills and score and no health above 100: ammo + kills = 50, health is at most 100, tick is the ticks executed and score is 1000 a kill plus one a forward tick, modulo 2^32 |
| `DoomRequests.ConservedExactly` | services/doom/src/service.c:46-77 | for every id: those accounts hold over every run if and only if the id is too long or holds a NUL, so that it has no game, or meets that condition; the failing runs are printed requests of three calls at most |
| `DoomRequests.FieldNamesConserve` | services/doom/src/service.c:61-77 | of the ids that are a field's name, health keeps the accounts and tick, ammo, kills and score do not |
| `DoomPayloads.PrintedDecodes` | services/doom/src/service.c:46-70 | every session id, and every account, that is not empty, holds no NUL and fits can be asked for: its request, with quotes and backslashes escaped, decodes to it |
| `DoomRuns.SessionsArePermanent` | services/doom/src/service.c:46-73 | over every run an existing session is never created again and keeps its owner |
| `DoomOwners.BoundToCreator` | services/doom/src/service.c:46-72 | in every run after its creation with metadata a session belongs to exactly the account read back from that metadata, if it is not empty; that is the creator if and only if the account is not empty and holds no quote and no backslash |
| `DoomOwners.TakenByAnother` | services/doom/src/service.c:46-72 | every account with a quote or backslash that can own a session owns what a different account creates |
| `DoomOwners.CreatorOwns` | services/doom/src/service.c:46-72 | each account that is short enough when escaped, or two characters longer and ending in a quote and a comma, is read back from the metadata of another account's session |
| `DoomOwners.OwnerCanOwn` | services/doom/src/service.c:46-72 | no other account is ever read back: those are exactly the accounts that can own a session |
| `DoomRequests.CreateReady` | services/doom/src/service.c:71 | a printed create request makes a session that its account owns, for every id |
| `DoomOwners.NeverPlayed` | services/doom/src/service.c:71-72 | a session created without a map and a difficulty is never acted on again by anyone |
| `DoomRequests.NeverPlayedExists` | services/doom/src/service.c:71-72 | there are such sessions: a printed create request without those fields makes one |
| `DoomScores.ResultReads` | services/doom/src/service.c:76 | the score read back from a stored result is the number the quoted session id holds behind the score's quoted name, else the one the quoted account holds, else the score |
| `DoomScores.BeatsExactly` | services/doom/src/service.c:76 | for every session and account: a finished game replaces a stored best exactly when its score is higher than the number so read |
| `DoomScores.LowerScoreOverwrites` | services/doom/src/service.c:76 | the step that fails: the best of an account called score, from a session whose id leaves the score alone, is overwritten by any lower positive score |
| `DoomScores.BestIsMaximum` | services/doom/src/service.c:76 | over every run, for an account whose quoted text does not hold the score's quoted name, whatever its sessions are called: its stored best score is the maximum over all its finish steps, and there is one exactly when it finished a game |
| `DoomBest.BestExactly` | services/doom/src/service.c:46-77 | for every account: that holds over every run if and only if the account can own no session or does not hold that name; the failing runs are printed requests |
| `DoomBest.BestOfPlainAccounts` | services/doom/src/service.c:46-77 | of the accounts without a quote and a backslash, score is the only exception |
| `DoomBest.LowerScoreOnRecord` | services/doom/src/service.c:46-77 | the failing runs: two sessions of such an account are created, played and finished from an empty storage, and the result of the one played for fewer ticks is on record |
| `DoomBest.ScoreFalls` | services/doom/src/service.c:46-77 | the account called score has such sessions |
| `DoomSessions.SessionRuns` | services/doom/src/service.c:69-77 | printed requests create a session and play it for any number of ticks, in any run where it is not there yet, with one more shot for each tick |
| `Base64.FindChar` | services/computer/src/service.c:24 | the scan of the alphabet finds exactly the value of its characters |
| `Base64.AlphabetSpelled` | services/computer/src/service.c:24 | the 64 characters in order, and the padding |
| `Base64.Base64Decode` | services/computer/src/service.c:60-79 | the loop, carrying at most six bits below 2^bits, writes what the decoder specifies, and returns zero on failure |
| `Base64.DecodeOfEncode` | services/computer/src/service.c:60-79 | decoding the standard padded encoding gives the bytes back if and only if they fit the capacity, and fails otherwise |
| `Base64.AcceptedExactly` | services/computer/src/service.c:60-79 | accepted are exactly the texts whose characters before the padding are all in the alphabet and whose whole bytes fit |

## Left out

- `service_runtime_core`, the guest's refine path and the signature check are not part of this model: the execution context is
  modelled as a state behind a set of known keys with one snapshot, the result decoder as the strict inverse of the
  script's printer, the application key class as 1, and the nonce key as any injective function outside that class.
- BLAKE2b, the DOOM state hash's canonical text, `deterministicRandom` and the managed-state commitment's encoding: functions of
  their inputs, without a definition.
- UTF-8: text is a sequence of bytes; string lengths count bytes and names sort by bytes, as they do for ASCII. Trimming knows
  the UTF-8 forms of all the characters that `trim` strips.
- Infinite numbers and NaN: numbers are reals. An abort code or natural that is one is refused like any other outside its
  range; an infinite chunk size gives a single chunk and NaN an empty one; the rounding of chunk offsets is not modelled.
- ServiceHost.ExecutionContext.Execute: starts from a decoded action; decoding and verifying a signed one, and the refusals
  there, are not part of this model.
- ComputerService.Service.Initialize: keeps the owner, the root node, its index and the manifest; the other profile fields,
  the appearance and the desktop index are not tracked.
- LiveFileSystem.Client.WriteContent: takes the content root that the upload would return.
- MockDoom.SessionRecord.Step: does not track the state hash that each tick recomputes.
- MockDoom.SessionRecord.FinishSession: does not build the result record and the leaderboard entry.
- SiteManifest.Publish: takes the locale comparison as a parameter, because the locale's order is not in the source, and asks for
  sound indexes: on unsound ones the walk need not end (`FsFailures.RootListsItself`).
- ComputerService: profile, appearance and desktop actions, and the raw `setNodeMetadata` and `setDirectoryIndex` actions, which
  can break any index claim; concurrent clients.
- LiveFileSystem: reading and uploading content, account lookup, and the client codec's bounds other than path and MIME lengths.
- FsRuns.RunsStaySound: asks for clean names (no newline, no surrounding space) and no rename onto itself; what holds of any
  other run is `FsRuns.RunsAreSoundExactly`.
- FsComplete.RunsStayComplete: asks for no rename onto itself or to the root, after which the shape it starts from is lost; the
  one step is in `FsComplete.StepComplete`.
- Publishing: `readPublished`, which fetches content.
- MockDoom: the state hash, the object list beyond position and aliveness, the map of sessions, events and the leaderboard; ticks beyond
  2^53, where the source's numbers stop counting.
- DoomService: the refine and accumulate wrappers, null checks, the size check of `key_for` (a key of a 159-byte id fits), and write failures;
  a stored value longer than the read buffer counts as a failed read.
- Accumulate: a failed storage write and the guest's result buffer; results are decoded headers or undecodable.
- The rest of the C Computer Service, the PolkaVM runner, transports, wallets, the user interface, and the mock clients:
  they would add easier members only.
