# SnitchOS, verified

A Dafny model of the parts of SnitchOS where the hard promises are: the `hitch` value encoding and
its manifest notes, the correction loop that generates training programs (`cram-gen`), the
grammar-guided sampler and its server (`babble`), the telemetry observer (`collector`), UTF-8
chunking and capability names (`abi`), and the Wilson interval that ranks flaky tests
(`itest-harness`). `dafny verify dfyconfig.toml` checks the whole project.

## How it is organised

Code that updates things step by step is a method or a class here too. Each is proved equal to a
function of its inputs or of the old state, and what the source promises is proved about that
function.

| files | component |
|---|---|
| `Words`, `Utf8`, `Names` | machine words, UTF-8 as sections 3 and 4 of RFC 3629 define it, chunking and names |
| `HitchSchema`, `HitchPacked`, `HitchIntegers`, `HitchRoundTrip`, `HitchBytes`, `HitchErrors`, `HitchCounts`, `HitchAgreement`, `HitchCanonical` | shapes, values and the packed encoding |
| `HitchManifest`, `HitchManifestProofs`, `HitchNote`, `HitchNoteBytes` | the manifest note |
| `CramLoop`, `CramText`, `CramProofs`, `CramTermination`, `CramOutcomes` | the correction loop |
| `BabbleTables`, `BabbleSampler`, `BabbleDistribution`, `BabbleLikelihood`, `BabbleWalk`, `BabbleProofs`, `BabbleTrace`, `BabbleWords`, `BabbleServe` | the sampler, the walk and the server |
| `CollectorModel`, `CollectorState`, `CollectorCaps`, `CollectorOnce`, `CollectorTime`, `CollectorHistograms`, `CollectorSessions`, `CollectorTables`, `CollectorExports` | the observer |
| `Wilson` | the interval |

Main results, in one line each:

- The packed encoding round-trips, is prefix-free, and is canonical on exactly the shapes `HitchCanonical.Canonical` describes: any other shape has bytes that decode and re-encode differently. On those shapes it is a bijection up to type names. Every shape's ranges and bytes are also stated in plain numbers, and every way of failing in terms of the input.
- Decoding a manifest note succeeds with `m` if and only if the bytes begin with the framed payload of `m`, whatever follows.
- Whatever the model streams, every kept prefix of the correction loop is viable and what it returns is made of the model's own chunks, in the one way they allow. With a cap and a bound on what responses hold outside their program the loop ends within a stated number of calls; without either it need not.
- The rejection sampler draws from exactly the distribution published for scoring.
- Every babbled program is complete, and is the sampler's picks at their own lengths and depths, each written once; every served completion is a longest run of whole legal tokens.
- Every capability holding in any stream is exported exactly once; the anchor is the earliest tick since the last zero, whatever the ticks, and a revoked holding ends before it starts just when that moved too far. Every field and absolute time of what is exported is given by the stream.
- The Wilson interval needs neither of its clamps, and more runs at the same rate rank higher.

## What is a parameter

- Narrowing and widening of floats (`FloatConv`): any two functions. Bits of an `f64` are a `u64`.
- The Stitch oracle: any predicate `admits(source, class)`; lexemes: any function of a class and a drawn number.
- `extract` and the death of a program in `cram-gen`: any functions. A model is a script of replies: the chunks each call would stream and the error it would end with. `Suspended` is the loop still waiting when the script runs out.
- The host clock of the collector: two readings with every frame and one at the end of the stream.
- The kernel behind `console_write`: any function from a chunk to the count it says it took, or a refusal.
- Square roots: any `root` with `root >= 0` and `root * root` the radicand, which is always positive.

## Where code and comments differ

- abi/src/lib.rs:455-463 says a chunk is the longest whole-character prefix and never empty. It is never empty only when the limit is not 0, and it is that prefix only when the limit is 0 or the first character fits (`ChunkEndIsLongestPrefix`, `ChunkEndProgress`, `SplitCharacter`).
- hitch/src/lib.rs:96-130 accepts a value by any variant of its name, while packing (794-860) takes the first. The two agree on distinct names, and exactly when no variant is shadowed otherwise (`PacksIffAccepted`, `AcceptedButUnpackable`).
- hitch/src/lib.rs:918-919 grows a sequence as its items are read, so that a bogus count cannot exhaust the decoder. A count is bounded by the bytes it counts if and only if the items are of a shape that takes bytes (`CountBoundedIff`); otherwise four bytes decode to any number of items (`FourBytesAnyCount`).
- collector/src/state.rs:190-192 promises one version warning per `Hello`. The flag is never reset, so a `Hello` of another version is warned of if and only if it is the first such of the stream (`WarnsIffFirst`, `SecondMismatchIsSilent`).
- collector/src/state.rs:486-495 resets the session and leaves out the thread tables: a span can be exported under a thread of the session before (`ThreadsOutliveSessions`), and two histories export alike if and only if they agree on that thread (`ExportsEqualIff`).
- collector/src/state.rs:497-503 keeps "the smallest `t` yet". A tick of 0 reads as unset and starts it over (`SettledIsOrigin`, `SettlesOnEarliestIff`), and a holding can end before it starts (`ZeroTickReverses`), exactly as `RevokedInOrderIff` says.
- babble/src/lib.rs:264-265 says the seeding keeps seed 0 off the absorbing state. One other seed is on it (`StuckIffMaskSeed`).
- babble/src/lib.rs:354-356 says a walk picks uniformly among the legal classes. It does if and only if they weigh the same (`UniformIff`), and under the default policy the end never weighs what another class does (`DefaultIsNotUniform`).
- cram-gen/src/lib.rs:395-402 bounds being stuck, not running: with any budget the loop can rewind for ever, making progress each time, without a cap (`UncappedLoopMayNotEnd`) and with any cap too when responses hold ever more outside their program (`CappedLoopMayNotEnd`).

## Model

| member | source | states |
|---|---|---|
| `Utf8.ValidIffEncoding` | abi/src/lib.rs:445-448 | the byte syntax accepted is exactly the encodings of sequences of Unicode scalar values |
| `Utf8.CutValidText` | abi/src/lib.rs:494-503 | cutting text anywhere leaves bytes whose check stops at the last boundary before the cut, and only because a character is incomplete |
| `Utf8.ValidUpToIsLongest` | abi/src/lib.rs:494-503 | no prefix longer than what the check reports as text is text |
| `Names.Utf8ChunkEnd` | abi/src/lib.rs:465-476 | the backing-up loop computes the chunk end the following rows are about |
| `Names.ChunkEndIs` | abi/src/lib.rs:465-476 | of any bytes it is all of them if they fit, else up to the last place within the limit after which no continuation byte comes, else as many as the limit allows |
| `Names.ChunkEndIsLongestPrefix` | abi/src/lib.rs:455-476 | on text the chunk is the longest whole-character prefix within the limit if and only if the limit is 0 or the first character fits; otherwise it is not text |
| `Names.ChunkEndProgress` | abi/src/lib.rs:461-476 | a chunk of non-empty input is non-empty if and only if the limit is not 0 |
| `Names.SplitCharacter` | abi/src/lib.rs:465-476 | a three-byte character against a limit of 1 is split into a chunk that is not text |
| `Names.ChunksCover` | user/runtime/src/lib.rs:694-702 | under any limit from 1 up the repeated chunks are non-empty, within it and concatenate to the input, text or not |
| `Names.ChunksAreTextIff` | abi/src/lib.rs:455-476 | the chunks of a text are all text if and only if every character is within the limit |
| `Names.FourFits` | abi/src/lib.rs:455-476 | which from 4 up holds of every text |
| `Names.WriteChunks` | user/runtime/src/lib.rs:694-722 | under any limit the loop sends the chunks up to the first the kernel refuses, and returns the sum of what it says it took |
| `Names.TextIsWritten` | user/runtime/src/lib.rs:688-722 | a kernel that takes the whole of every text within the limit is given the whole of every text whose characters are, and from 4 up of every text |
| `Names.ConsoleWrite` | user/runtime/src/lib.rs:694-722 | the same for the console's limit of 256 |
| `Names.PackNameKeepsLongestPrefix` | abi/src/lib.rs:426-431 | a packed name keeps the longest whole-character prefix of at most 24 bytes |
| `Names.NamePacks` | abi/src/lib.rs:426-431 | that prefix and then zeros, 24 bytes in all, is what a name packs to |
| `Names.RawNamePacks` | abi/src/lib.rs:493-504 | raw bytes that are taken pack to their longest whole-character prefix of at most 24 bytes and then zeros |
| `Names.NameStrIs` | abi/src/lib.rs:433-448 | any bytes read back as those before the first NUL if they are text, and as nothing otherwise |
| `Names.NameStrOfPackName` | abi/src/lib.rs:426-448 | reading a packed name back gives that prefix up to its first NUL, and the whole name when it fits and has none |
| `Names.NamingPathsAgree` | abi/src/lib.rs:426-504 | packing the first 24 raw bytes of a name gives what packing the name gives, even when the cut splits a character |
| `Names.RefusedIffUnextendable` | abi/src/lib.rs:493-504 | raw bytes are refused if and only if no continuation would make them text |
| `HitchSchema.CompatibleIffUnnamedEqual` | hitch/src/lib.rs:132-155 | shapes are compatible if and only if they are equal once type names are erased |
| `HitchSchema.CompatibleIsEquivalence` | hitch/src/lib.rs:132-155 | compatibility is reflexive, symmetric and transitive |
| `HitchSchema.CompatibleAccepts` | hitch/src/lib.rs:96-155 | compatible shapes accept the same values |
| `HitchSchema.AcceptsSameValue` | hitch/src/lib.rs:96-130 | acceptance does not look at the type names in a value |
| `HitchIntegers.UintRoundTrip` | hitch/src/lib.rs:743-783 | an unsigned word that fits a width survives narrowing and zero-extension |
| `HitchIntegers.UintCanonical` | hitch/src/lib.rs:743-783 | any bytes of a width zero-extend to a word that fits it and narrows back to them |
| `HitchIntegers.IntRoundTrip` | hitch/src/lib.rs:748-792 | a signed word that fits a width survives narrowing and sign extension, at both boundaries |
| `HitchIntegers.IntCanonical` | hitch/src/lib.rs:748-792 | any bytes of a width sign-extend to a word that fits it and narrows back to them |
| `HitchBytes.AcceptedUints` | hitch/src/lib.rs:96-130 | each unsigned shape accepts exactly the numbers below 2^8, 2^16, 2^32 or 2^64 |
| `HitchBytes.AcceptedInts` | hitch/src/lib.rs:96-130 | each signed shape accepts exactly those of its two's complement, ends included |
| `HitchBytes.PackedUints` | hitch/src/lib.rs:743-783 | every unsigned number packs to its bytes, least significant first and one by one, or is refused as out of range |
| `HitchBytes.PackedInts` | hitch/src/lib.rs:748-792 | so does every signed number, a negative one as the unsigned number of its bits |
| `HitchBytes.PackedLeaves` | hitch/src/lib.rs:794-860 | a flag is one byte, a float its four or eight bytes, text and bytes a four-byte length and then themselves, refused from 2^32 bytes on |
| `HitchBytes.PackedSeq` | hitch/src/lib.rs:794-860 | a sequence packs to some bytes if and only if they are its four-byte count and then what each item packs to, in order |
| `HitchBytes.PackedProduct` | hitch/src/lib.rs:794-860 | a product if and only if they are what each field packs to, in order, each under its name |
| `HitchBytes.PackedSum` | hitch/src/lib.rs:794-860 | a variant if and only if they are the four-byte index of the first variant of its name and then its payload |
| `HitchBytes.RefusalIsMismatch` | hitch/src/lib.rs:794-860 | packing fails as a mismatch and in no other way |
| `HitchPacked.HitchPackedValue` | hitch/src/lib.rs:714-718 | the encoder that appends to a buffer yields the encoding the laws are about, or its error |
| `HitchPacked.UnhitchPackedBytes` | hitch/src/lib.rs:723-731 | the cursor decoder yields the decoding the laws are about, trailing bytes refused |
| `HitchPacked.Cursor.Take` | hitch/src/lib.rs:869-876 | a take hands over the next bytes and leaves the rest, or fails when there are too few |
| `HitchRoundTrip.UnpackOfPack` | hitch/src/lib.rs:794-947 | unpacking an encoding followed by anything gives the value relabelled with the shape's names and leaves exactly what followed |
| `HitchRoundTrip.UnhitchOfHitch` | hitch/src/lib.rs:714-731 | decoding undoes encoding |
| `HitchRoundTrip.RestoreIsSameValue` | hitch/src/lib.rs:710-731 | without four-byte floats the value that comes back is the one that went in, up to type names |
| `HitchRoundTrip.UnpackDelimited` | hitch/src/lib.rs:864-947 | what an unpack consumes decodes to the same value in front of anything else |
| `HitchRoundTrip.PrefixFree` | hitch/src/lib.rs:794-947 | an encoding that begins another under the same shape is that encoding |
| `HitchErrors.ShortIff` | hitch/src/lib.rs:864-947 | unpacking runs out of input if and only if more bytes could change its answer |
| `HitchErrors.TrailingIff` | hitch/src/lib.rs:723-731 | decoding finds trailing bytes if and only if a shorter prefix decodes |
| `HitchRoundTrip.SameValueIsEquivalence` | hitch/src/lib.rs:96-130 | equality of values up to type names is reflexive, symmetric and transitive |
| `HitchRoundTrip.PackInjective` | hitch/src/lib.rs:794-860 | without four-byte floats equal encodings come from values equal up to type names |
| `HitchCounts.CountBoundedIff` | hitch/src/lib.rs:916-924 | at least as many bytes are consumed as items are read, for every count and input, if and only if the items' shape is not a product of shapes that take none |
| `HitchCounts.FourBytesAnyCount` | hitch/src/lib.rs:916-924 | for such a shape the four bytes of any count are a sequence of that many items |
| `HitchAgreement.PacksIffAccepted` | hitch/src/lib.rs:96-130 | packing succeeds if and only if the value is accepted, its lengths fit 32 bits and no variant it names is shadowed |
| `HitchAgreement.PackAgreesWithAccepts` | hitch/src/lib.rs:794-860 | with distinct variant names packing succeeds if and only if the value is accepted and its lengths fit |
| `HitchAgreement.AcceptedButUnpackable` | hitch/src/lib.rs:120-128 | a concrete shape with a repeated variant name accepts a value that does not pack |
| `HitchAgreement.CompatiblePack` | hitch/src/lib.rs:132-155 | compatible shapes pack every value to the same bytes or the same error |
| `HitchAgreement.CompatibleUnpack` | hitch/src/lib.rs:889-947 | compatible shapes unpack every byte string to the same value up to type names, with the same rest or error |
| `HitchAgreement.PackSameValue` | hitch/src/lib.rs:794-860 | values equal up to type names pack to the same bytes or the same error |
| `HitchAgreement.CompatibleStages` | hitch/src/lib.rs:132-155 | what a stage packs against its output shape is read against a compatible input shape as the value that was packed, with that shape's names, and both accept the same values |
| `HitchCanonical.Repack` | hitch/src/lib.rs:889-947 | on a canonical shape, packing what bytes unpacked to gives exactly the bytes consumed |
| `HitchCanonical.CanonicalIff` | hitch/src/lib.rs:723-731 | every decodable byte string is the encoding of what it decodes to if and only if the shape is canonical: no variant that can be read repeats an earlier name, four-byte floats survive widening |
| `HitchCanonical.DistinctNamesCanonical` | hitch/src/lib.rs:794-947 | distinct variant names and no four-byte floats make a shape canonical |
| `HitchCanonical.PackedBijection` | hitch/src/lib.rs:714-731 | on a canonical shape the decodable byte strings are exactly the encodings, each of the accepted value it decodes to; two values share one if and only if they are restored alike, and without four-byte floats if and only if they are equal up to type names |
| `HitchManifestProofs.DecodeOfEncode` | hitch/src/lib.rs:517-632 | decoding the note of a manifest gives its runtime projection, through the zero padding and the length written last |
| `HitchManifestProofs.PayloadDecodes` | hitch/src/lib.rs:608-632 | any bytes that begin with a framed payload decode to its manifest |
| `HitchManifestProofs.DecodedCarriesPayload` | hitch/src/lib.rs:540-632 | re-encoding whatever decoded reproduces the bytes consumed |
| `HitchManifestProofs.DecodesIffCarriesPayload` | hitch/src/lib.rs:608-632 | bytes decode to a manifest if and only if they begin with its framed payload |
| `HitchManifestProofs.ProjectOfEmbed` | hitch/src/lib.rs:302-333 | every runtime shape is the projection of a const shape |
| `HitchManifest.ReadSchema` | hitch/src/lib.rs:564-603 | a shape that is read consumes at least one byte, so the decoder is total |
| `HitchManifest.ReadFields` | hitch/src/lib.rs:564-603 | a counted read consumes at least as many bytes as it counts, so no count outruns the input |
| `HitchNote.EncodeManifest` | hitch/src/lib.rs:517-538 | the fixed-buffer encoder succeeds if and only if the framed payload fits 1024 bytes, and then leaves the note: length, payload, zeros |
| `HitchNote.DecodeManifestFrom` | hitch/src/lib.rs:608-632 | the cursor decoder computes the decoding the laws are about, length check included |
| `HitchNoteBytes.LeafBytes` | hitch/src/lib.rs:467-481 | each leaf shape is written as its own tag, from 0 to 12 |
| `HitchNoteBytes.SeqBytes` | hitch/src/lib.rs:482-485 | a sequence shape is 13 and its element |
| `HitchNoteBytes.ProductBytes` | hitch/src/lib.rs:486-497 | a product is 14, its name behind a four-byte length, its four-byte count and its fields, a name behind 1 or 0 for none |
| `HitchNoteBytes.SumBytes` | hitch/src/lib.rs:498-509 | a sum is 15, its name, its count and its variants, each a name and a shape |
| `HitchNoteBytes.NoteBytes` | hitch/src/lib.rs:517-538 | a note is the four-byte length of its payload; version 2, input and output behind 1 or 0 for none, the count of the slots, each a name, a kind and four bytes of rights; and zeros to 1024 bytes |
| `HitchNoteBytes.OneNote` | hitch/src/lib.rs:517-538 | one note of a stage with an input, an output and a slot, byte for byte |
| `HitchNoteBytes.DecodeSettled` | hitch/src/lib.rs:608-632 | only a note that ends too soon decodes differently when more follows |
| `HitchNoteBytes.Refusals` | hitch/src/lib.rs:549-632 | an unknown version, tag or mark is a mismatch, and so is a length that is not that of the payload |
| `HitchNoteBytes.TextRefusals` | hitch/src/lib.rs:540-547 | a name that is not UTF-8 is a mismatch, one cut off anywhere runs out of input, any other is read |
| `CramLoop.RunOnceCapped` | cram-gen/src/lib.rs:376-527 | the loop, with its counters and rewinds in place, returns what the specification of a run returns |
| `CramLoop.PopChunks` | cram-gen/src/lib.rs:512-520 | popping splits the kept chunks into what stays and the text discarded, up to the depth asked for |
| `CramLoop.StreamRound` | cram-gen/src/lib.rs:407-439 | a streamed round stops at the first chunk whose text is doomed or too long, with its separator repaired |
| `CramText.LostSeparatorSeparates` | cram-gen/src/lib.rs:547-553 | the separator is nothing before a replacement that opens with whitespace, and else all the whitespace the discarded text opened with |
| `CramText.SeparatesOnce` | cram-gen/src/lib.rs:547-553 | and no other text is |
| `CramText.TailIsContext` | cram-gen/src/lib.rs:556-560 | a correction's context is the longest end of the kept text within 240 bytes, in whole characters |
| `CramText.JudgeSays` | cram-gen/src/lib.rs:432-437 | a response is too long if and only if its program has more bytes in UTF-8 than a cap that is not 0, and doomed if and only if it is not and the program, without the whitespace it ends with, is not empty and admits no token |
| `CramText.TrimEndTrims` | cram-gen/src/lib.rs:437 | trimming removes all the whitespace a program ends with and nothing else |
| `CramText.WhitespaceIs` | cram-gen/src/lib.rs:548 | whitespace is the 25 characters with that Unicode property |
| `CramText.LenIsEncoded` | cram-gen/src/lib.rs:436 | lengths are those of the UTF-8 encoding |
| `CramText.TextOfParts` | cram-gen/src/lib.rs:432 | what is kept reads as each separator and then its chunk, in order |
| `CramText.JoinParts` | cram-gen/src/lib.rs:477-493 | a reply reads as its chunks in order |
| `CramProofs.LoopIsChain` | cram-gen/src/lib.rs:405-526 | at the top of every turn of every run every chunk boundary of the kept text is viable and within the cap, and each rewind splits the text exactly, asking for 2 to the power of the times stuck |
| `CramProofs.EveryRunAccounted` | cram-gen/src/lib.rs:405-497 | every rewound text and the last one are what was kept and then the reply's own chunks in order, the first behind the whitespace its discarded text opened with unless it brings its own; the result is what survives of them, viable at every boundary, and every chunk is counted where it went |
| `CramProofs.LoopHears` | cram-gen/src/lib.rs:405-526 | each rewind of any run splits exactly what was kept before it and what it heard of its own reply |
| `CramProofs.OneAccount` | cram-gen/src/lib.rs:441-497 | what survived, what was dropped and what was taken unguarded are decided by what the model sent |
| `CramProofs.DoneAccounted` | cram-gen/src/lib.rs:441-455 | a guarded return is the kept chunks and the whole of the last reply, viable throughout, or as far as the chunk the cap cut it at |
| `CramOutcomes.EveryRunEnds` | cram-gen/src/lib.rs:405-497 | a run gives up only after being stuck in a row as often as its budget allows, fails only with the error of a reply heard or taken to its end, and waits only when there is no reply to its call |
| `CramTermination.EveryRewindLogged` | cram-gen/src/lib.rs:414-429 | a finished run's corrections are its rewinds in order, with the last 240 bytes kept as context, discarded text and depth, each with the chunk its next reply opened with as replacement; only the last may lack one |
| `CramTermination.CappedLoopEnds` | cram-gen/src/lib.rs:391-403 | with a cap C and at most K bytes of a response outside its program there are at most (C+K)(budget+1) rewinds and two calls more, whatever the model does |
| `CramTermination.NoBudgetEnds` | cram-gen/src/lib.rs:457-497 | without a budget two calls always end the loop |
| `CramTermination.UncappedLoopMayNotEnd` | cram-gen/src/lib.rs:395-402 | without a cap, for any positive budget and any number of calls, a model whose responses are all program keeps the loop rewinding through all of them |
| `CramTermination.CappedLoopMayNotEnd` | cram-gen/src/lib.rs:431-438 | nor is a cap enough: for any cap, any positive budget and any number of calls a model whose responses hold ever more outside their program does the same |
| `BabbleTables.WalkBends` | babble/src/lib.rs:163-197 | as a walk grows longer or deeper, closers and the end never lose weight and nothing else gains any |
| `BabbleTables.WeighIs` | babble/src/lib.rs:171-197 | a class weighs 1024 times its base: times the pressure if it finishes, over its cube if it obliges, over its square otherwise, and 1 if that is less; nothing if the base is 0 |
| `BabbleTables.ClassesAre` | babble/src/lib.rs:96-125 | which classes finish, close and oblige, by discriminant |
| `BabbleTables.PressureIs` | babble/src/lib.rs:180-181 | pressure starts at 1, rises by one every `softness` tokens up to 16, and a level of nesting counts as `depth_weight` tokens |
| `BabbleTables.DefaultStarts` | babble/src/lib.rs:132-136 | the default policy's first weights, where its pressure first rises and when its wind-down begins, in numbers |
| `BabbleTables.PressureFits` | babble/src/lib.rs:180-181 | 32-bit arithmetic agrees while length and weighted depth stay below 2^32 - 1 |
| `BabbleTables.UsableIffCanFinish` | babble/src/lib.rs:143-161 | a policy validates if and only if pressure is defined and the end and every closer can be drawn at any length and depth |
| `BabbleTables.ValidateSays` | babble/src/lib.rs:143-161 | each complaint is made if and only if it is the first that is true: no softness, an end that weighs nothing, a closer that does |
| `BabbleTables.StrictOrder` | babble/src/lib.rs:47-51 | from a base of 8 and under any pressure up to the cap obligations, extenders and finishers stay in strict order above the floor |
| `BabbleTables.DrawableIffBased` | babble/src/lib.rs:184-188 | a class is drawable if and only if its base weight is not 0 |
| `BabbleSampler.StuckIffMaskSeed` | babble/src/lib.rs:263-274 | the generator is in its absorbing state, at any step, if and only if the seed is the mask |
| `BabbleSampler.Rng.Next` | babble/src/lib.rs:269-275 | each call yields the next number of the seed's stream |
| `BabbleSampler.FirstNumbers` | babble/src/lib.rs:261-275 | the first two numbers of three seeds |
| `BabbleSampler.Pick` | babble/src/lib.rs:292-319 | the shrinking-vector loop returns the class and uses the numbers that the specification of a pick does |
| `BabbleSampler.PickIsLegal` | babble/src/lib.rs:292-319 | whatever is drawn, a pick is a legal candidate, and there is none if and only if no candidate is legal |
| `BabbleSampler.DistributionLists` | babble/src/lib.rs:321-350 | the published distribution lists every legal class with a positive weight once, with that weight, in discriminant order; the sampler draws from the same list of all classes |
| `BabbleSampler.DrawFalls` | babble/src/lib.rs:299-311 | a draw picks the candidate whose share of the total it falls in |
| `BabbleSampler.SwapRemoved` | babble/src/lib.rs:316 | a rejected candidate makes way for the last one and no other moves |
| `BabbleDistribution.ProportionalDraw` | babble/src/lib.rs:284-319 | for every candidate list and oracle with a legal candidate, the chance of each class times the legal weight is the class's legal weight |
| `BabbleDistribution.NothingLegal` | babble/src/lib.rs:298-319 | with no legal candidate the chance of nothing is 1 |
| `BabbleDistribution.PickDrawsFromDistribution` | babble/src/lib.rs:321-350 | under uniform draws each class is returned with exactly its weight over the total of the published distribution, an illegal class never, and nothing if and only if the distribution is empty |
| `BabbleLikelihood.SamplerHasProb` | babble/src/lib.rs:292-319 | those chances are the sampler's own: its results, averaged over every way its draws can fall, for every candidate list and oracle |
| `BabbleLikelihood.SamplerDrawsFromDistribution` | babble/src/lib.rs:284-350 | so the sampler returns each class with exactly its weight over the total of the published distribution |
| `BabbleDistribution.UniformIff` | babble/src/lib.rs:354-356 | a pick is uniform over the legal classes if and only if they all weigh the same |
| `BabbleDistribution.DefaultIsNotUniform` | babble/src/lib.rs:132-136 | under the default policy it is not, at any length and depth, whenever the end and another class are legal |
| `BabbleDistribution.TotalFits` | babble/src/lib.rs:299-300 | base weights that add up to less than 2^18 never overflow the 32-bit total |
| `BabbleDistribution.DefaultTotalFits` | babble/src/lib.rs:132-136 | the default policy never does |
| `BabbleWalk.WalkFromSeed` | babble/src/lib.rs:401-458 | the walk's loop, with its truncation to a remembered length and step count, returns what the specification of a walk returns |
| `BabbleProofs.WholeProgramWalks` | babble/src/lib.rs:401-458 | for every oracle, policy, prefix and stream a whole-program walk ends in one `Eof` at its source, follows legal steps that extend one another, passes no complete point after the wind-down, and its end is legal if and only if the prefix was complete or a token was kept |
| `BabbleProofs.BabbledProgramsAreWhole` | babble/src/lib.rs:352-370 | from nothing, if nothing is a program, every step to the final `Eof` is legal |
| `BabbleProofs.FragmentWalks` | babble/src/lib.rs:387-447 | a walk with a token budget is a legal path within it |
| `BabbleProofs.FragmentsNest` | babble/src/lib.rs:401-447 | a smaller token budget gives a token-boundary prefix of what a larger one gives |
| `BabbleProofs.AppendIsSpaced` | babble/src/lib.rs:436-442 | writing a token adds one space and its lexeme, or the lexeme alone to an empty source |
| `BabbleTrace.WalkSpells` | babble/src/lib.rs:436-442 | the source of any walk is its prefix and then the lexemes of its steps, in order, each behind one space unless nothing is before it |
| `BabbleTrace.DeepenIsDepth` | babble/src/lib.rs:427-431 | the depth is the largest balance of obligations over closers of any run of steps up to the last |
| `BabbleTrace.FragmentsAreSampled` | babble/src/lib.rs:401-447 | every step of a completion is the sampler's pick at its own length and depth, with the numbers that follow those used before, and it stops only at its budget or 200 tokens, at an end or with nothing to pick |
| `BabbleTrace.ProgramsAreSampled` | babble/src/lib.rs:401-458 | a program is such picks, cut where it stood once complete after the wind-down, before an end that was picked, or else at the last boundary where it was seen complete |
| `BabbleWords.TopIsOnWalk` | babble/src/lib.rs:401-447 | the state at the top of any turn of any walk is one from which walking on gives the whole walk, and it is no deeper than the walk is long |
| `BabbleWords.WalksStayInRange` | babble/src/lib.rs:163-197 | at the top of every turn of every walk, under any policy with base weights below 2^18 in all and a depth weight w with 200(1 + w) < 2^32 - 1, pressure, every weight and their total are computed within 32 bits |
| `BabbleWords.DefaultWalksStayInRange` | babble/src/lib.rs:132-136 | so they are on every walk of the default policy |
| `BabbleServe.HandleRequest` | babble/src/serve.rs:23-50 | a request is refused, buffer untouched, if and only if its prefix is too long or not text; else the buffer holds the longest run of whole tokens that fits and then what was there |
| `BabbleServe.CutIsServed` | babble/src/serve.rs:33-46 | the cut is a recorded boundary that fits with none longer, the fallback is never taken, and the text served is itself a legal walk |
| `BabbleServe.SmallerBufferNests` | babble/src/serve.rs:33-46 | a smaller buffer's answer begins a larger buffer's |
| `BabbleServe.WrittenFits` | babble/src/serve.rs:49 | with lexemes under 16 MiB the count of written bytes fits 32 bits |
| `CollectorState.CapTracker.Observe` | collector/src/caps.rs:37-94 | an event opens, continues or closes a holding in place as the specification does |
| `CollectorState.CapTracker.Flush` | collector/src/caps.rs:101-108 | flushing lists a span for every open holding once, in some order, and leaves none open |
| `CollectorState.Observe` | collector/src/state.rs:142-153 | an observation is counted in the first bucket whose bound it is within, the sum saturating |
| `CollectorState.State.Handle` | collector/src/state.rs:233-442 | handling a frame in place updates clock, tables, threads, flags and holdings as the specification does |
| `CollectorState.RunSource` | collector/src/main.rs:135-168 | the driver exports, for every frame and at the end, what the specification of a run exports |
| `CollectorCaps.AlwaysTracks` | collector/src/caps.rs:37-94 | after any frames the tracker holds exactly the holdings begun and not ended, each with its whole history |
| `CollectorCaps.ExportsAreEndings` | collector/src/main.rs:139-168 | each frame, and the end of the stream, exports the spans of exactly the holdings that end there |
| `CollectorCaps.ExportedExactlyOnce` | collector/src/main.rs:135-168 | every holding of every stream, over any number of restarts, ends at exactly one frame or at the end and is among what is exported there, marked revoked if and only if a revocation ended it |
| `CollectorCaps.OneWay` | collector/src/main.rs:141-157 | a frame drains at most one holding, and none if it flushed any |
| `CollectorOnce.AsManyAsEnd` | collector/src/main.rs:135-168 | each frame, and the end, exports as many cap spans as holdings end there |
| `CollectorOnce.DriverExportsOnce` | collector/src/main.rs:135-168 | in what the driver exports the span of each holding occurs once, with the one frame it ends at or at the end, and no frame exports a span more than end there |
| `CollectorCaps.EndingsDistinct` | collector/src/caps.rs:129-150 | two holdings that end together have different spans |
| `CollectorExports.ExportedHoldingIs` | collector/src/caps.rs:37-150 | wherever a holding ends, its span has kind, rights, badge, name, parent and start from the event that began it, the holder of the last that gave it, a moment for each event in order, and the end that ended it |
| `CollectorExports.MomentTimesAre` | collector/src/state.rs:383-388 | each moment is on the session's clock as its own event leaves it |
| `CollectorTime.SettledIsOrigin` | collector/src/state.rs:497-504 | whatever the ticks, the anchor's updates come to the earliest tick since the last zero, and to 0 if there is none |
| `CollectorTime.AnchorIsOrigin` | collector/src/state.rs:497-504 | at any point of any stream the anchor stands at that tick of the session, and there is an anchor if and only if a `Hello` came |
| `CollectorExports.ClockIs` | collector/src/state.rs:254-279 | at any point of any stream the clock has the timebase of the session's `Hello`, the wall clock read with it, and that earliest tick |
| `CollectorExports.TimesAre` | collector/src/state.rs:516-525 | so a tick converts to that wall clock and the whole nanoseconds from the earliest tick to it, none if that is later or the timebase is 0 |
| `CollectorTables.TicksAre` | collector/src/state.rs:233-442 | which frames move the anchor, and by which tick |
| `CollectorTime.SettlesOnEarliestIff` | collector/src/state.rs:497-504 | the anchor is the earliest tick of the session if and only if no tick is zero or the last one is |
| `CollectorTime.WallGrows` | collector/src/state.rs:516-525 | no converted time precedes the anchor's wall clock, and later ticks or earlier anchors never convert to earlier times |
| `CollectorTime.RevokedInOrderIff` | collector/src/state.rs:383-388 | a revoked holding starts no later than it ends if and only if no less time had elapsed since the earliest tick after the last zero at its revocation than at its grant, for every stream |
| `CollectorTime.RevokedInOrderIffTicks` | collector/src/state.rs:383-388 | which on a clock of at most a tick a nanosecond is a comparison of ticks |
| `CollectorTime.RevokedAfterGrant` | collector/src/state.rs:383-388 | so it holds of a revocation at a tick no earlier than the grant if no tick from one to the other is zero |
| `CollectorTime.ZeroTickReverses` | collector/src/state.rs:499-504 | a concrete stream with a zero tick in between exports a holding that ends before it starts |
| `CollectorTime.OpenSpansMatch` | collector/src/state.rs:289-312 | the open spans are exactly those started and not ended since the last `Hello`, each as last started |
| `CollectorTime.CompletesIff` | collector/src/state.rs:309-332 | a frame completes a span if and only if it ends one that is open |
| `CollectorExports.CompletedSpanIs` | collector/src/state.rs:309-332 | every completed span has the parent, name, task and hart of the last start of its id, both times on the session's clock as its end leaves it, and its name and thread as last registered |
| `CollectorTime.SpanDurationIff` | collector/src/state.rs:309-332 | with its ticks in order its duration is within one nanosecond of exact if the earliest tick since the last zero is no later than its start, and only if on a clock of at most a tick a nanosecond |
| `CollectorTime.SpanDuration` | collector/src/state.rs:309-332 | so it is when no tick since the start is zero |
| `CollectorHistograms.HistogramReads` | collector/src/state.rs:120-153 | the cumulative buckets of any observations are the numbers of observations within each bound, the sum saturated |
| `CollectorHistograms.HistogramsMatch` | collector/src/state.rs:337-358 | at any point each histogram is that of the values routed to it since the last `Hello` |
| `CollectorHistograms.ExposeRun` | collector/src/prom.rs:119-145 | a series is exposed if and only if a value was routed to it and its name registered since the last `Hello`; then each line is the number of routed values within its bound, lines never decrease, the last is the count, and the sum is the true one or the largest 64-bit number |
| `CollectorTables.ValuesMatch` | collector/src/state.rs:340-358 | at any point each metric and hart holds the last value not routed to a histogram since the last `Hello` |
| `CollectorTables.EmittersMatch` | collector/src/state.rs:284-288 | and each metric the task that last registered it |
| `CollectorSessions.SessionsForget` | collector/src/state.rs:486-495 | after a `Hello` clock, tables and holdings depend only on the frames since |
| `CollectorSessions.SessionsExportAlike` | collector/src/state.rs:486-495 | and so do the exports, but for what the thread tables add to a span |
| `CollectorSessions.ExportsEqualIff` | collector/src/state.rs:309-332 | two histories of a session export the same for a frame if and only if it completes no span or they agree on its task's thread |
| `CollectorSessions.ThreadsMatch` | collector/src/state.rs:361-365 | the thread tables hold every registration since the first `Hello` of the stream |
| `CollectorSessions.ThreadsOutliveSessions` | collector/src/state.rs:486-495 | a concrete stream exports a span under a thread registered only in the session before |
| `CollectorTables.FlagsMatch` | collector/src/state.rs:233-275 | the version is that of the last `Hello`, and frames before the first are warned of until it comes |
| `CollectorSessions.WarnsIffFirst` | collector/src/state.rs:261-275 | a `Hello` of another version is warned of if and only if no earlier one was of another version |
| `CollectorSessions.SecondMismatchIsSilent` | collector/src/state.rs:486-495 | a concrete stream of two such sessions warns of the first only |
| `Wilson.ScoreHoldsRate` | itest-harness/src/stats.rs:36-51 | for every 0 <= k <= n, n > 0 the interval holds the rate within [0, 1] with both clamps idle; it reaches 0 if and only if k is 0 and 1 if and only if k is n |
| `Wilson.ScoreSolves` | itest-harness/src/stats.rs:36-51 | each bound x solves (k - n x)^2 = z^2 n x (1 - x) with z = 1.959963984540054, the failures lying between n of the lower and n of the upper; and the interval is [0, 1] for no runs |
| `Wilson.MoreRunsRankHigher` | itest-harness/src/baseline.rs:335-350 | at equal positive rates more runs give a strictly higher lower bound, the order the listing sorts by |
| `Wilson.ScoreMirrors` | itest-harness/src/stats.rs:36-51 | trading failures for successes mirrors the interval about one half |
| `Wilson.RadicandPositive` | itest-harness/src/stats.rs:47 | there is always a square root to take |

## Left out

- Floating point: the Wilson interval is over exact reals, so rounding is not modelled; narrowing of floats is a parameter.
- `hitch` and `unhitch` in self-describing mode, `from_pod_bytes`, `pod_bytes` and the derive macros: they rest on postcard or on memory casts.
- `resolve_slot` and `satisfy`: list searches that would only add easy members.
- Stack depth and allocation failure in the recursive encoders and decoders.
- `extract`, reasoning and fence stripping, prompts and progress callbacks of `cram-gen`; and a reply is taken to be the concatenation of the chunks it streamed.
- CramTermination.CappedLoopEnds: bounds model calls, not the length of a single reply, which is finite by assumption.
- BabbleTables.WalkBends: is about exact numbers; `WalksStayInRange` says on which walks 32-bit arithmetic computes the same, and `DefaultWalksStayInRange` that every walk of the default policy is one.
- BabbleSampler.Pick: adds weights without the 32-bit limit; `TotalFits` says when the source's sum is the same.
- BabbleDistribution.PickDrawsFromDistribution: assumes uniform draws, as the source's own claim does; the bias of reducing a 64-bit number is not modelled.
- The stock of words and literals, and the HTTP or IPC side of the server.
- The lexer, parser and oracle of Stitch.
- CollectorState.State.Handle: counters are unbounded numbers, so a count beyond 2^64 is not modelled; nor are warnings printed and labels rendered as text. Frames that only move the anchor are one constructor and frames without effect another.
- Exporters, transports, the Prometheus and Loki servers and text formatting.
- The text of gauge and counter exposition and of emitter labels; the tables behind it are `ValuesMatch` and `EmittersMatch`.
- The two-proportion z-test: it needs an approximation of the normal distribution.
