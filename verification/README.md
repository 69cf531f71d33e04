# Play chunk aggregation and fixture loading, modelled in Dafny

This project models two pieces of the Play framework (1.x, Java) and proves
properties about them.

**The streaming chunk aggregator** (`play.server.StreamChunkAggregator`) is a
per-connection Netty upstream handler. A chunked HTTP message (section 3.6.1
of RFC 2616) opens a session:

- the `Transfer-Encoding` header is dropped when its values were `[]` or
  `[chunked]`; otherwise the message is left as it is, because `chunked` is
  removed from a copy of the values;
- a backing file with a random name is opened;
- `Expect: 100-continue` is answered with an interim `100 Continue`
  response (section 8.2.3 of RFC 2616).

What happens next depends on the chunk:

- A chunk that fits under `maxContentLength` (`-1` = no limit) is appended
  to the file.
- A chunk that would cross the limit is dropped, and the message gets the
  header `Warning: play.netty.content.length.exceeded`.
- A last chunk that fits completes the message. `Content-Length` becomes
  the stored byte count, the file becomes the body, the handler goes idle,
  and the message is fired upstream.
- An event that is neither a message nor a chunk is passed on unchanged in
  any state; with no session open, so is a message that is not chunked.
- A chunk with no session open, and a message during a session, fail the
  cast (`ClassCastException`) and change nothing.

The handler is `Server.StreamChunkAggregator`, a class with the Java fields,
the bytes written to the file so far, and a log of what it did to the
pipeline. Its method `MessageReceived` is proved against the pure transition
function `Server.Step`. The properties are lemmas about `Step` and about its
fold `Server.Run` (module `AggregatorProperties`).

**The test fixture helpers** (`play.test.Fixtures`) are modelled on values:

- `executeSQL` splits a script at `;` and runs the non-blank parts.
- `deleteDatabase` empties every table except `play_evolutions`, with a
  statement that depends on the database vendor.
- `delete(types)` deletes all instances of the given model types.
- `loadModels` reads a parsed YAML document whose top-level keys are
  `Type(id)`. For each object it:
  1. flattens the body into binder parameters (`serialize`);
  2. replaces relation ids by the keys of objects loaded earlier
     (`resolveDependencies`);
  3. saves the object;
  4. remembers it in `idCache` under `type-id`, for its type and every
     superclass.

The static `idCache` and everything sent to the database or to the plugins
are the fields of the class `Fixtures.FixtureLoader`. Its methods are proved
against the pure functions `Fixtures.Load`, `Fixtures.DeleteOps` and
`Fixtures.DeleteDatabaseOps`. What a load promises across calls is proved in
`FixtureProperties`.

Files:

- `Wrappers.dfy`: `Option`, `Result`.
- `Text.dfy`: Java `trim`, `startsWith`, `String.valueOf` of a count.
- `Http.dfy`: messages, chunks, headers, 32-bit `int`.
- `StreamChunkAggregator.dfy`: module `Server`.
- `AggregatorProperties.dfy`.
- `FixtureSql.dfy`: `executeSQL`, `getDeleteTableStmt`, `dontDeleteTheseTables`.
- `FixtureKeys.dfy`: `keyPattern` and the `models.` prefix.
- `FixtureYaml.dfy`: `serialize`.
- `FixtureDependencies.dfy`: `resolveDependencies`.
- `Fixtures.dfy`: the loader.
- `FixtureProperties.dfy`.

### Two behaviours of the code that one might not expect

The model follows the code in both cases.

- **An overflowing last chunk does not finish the message.** One might
  expect such a chunk to still finalise it (a 4-byte limit and a single last
  chunk `ABCDE` would then give a message of length 0). In the code,
  the overflow branch (lines 75-76) only sets the `Warning` header. The
  `isLast` test sits in the other branch (line 80), so the message is not
  emitted and the session stays open (`OverflowingLastChunkExample`,
  `OverflowingLastChunkKeepsSession`).
- **Bytes after an overflow can still be stored.** One might expect nothing
  past the first chunk that crosses the limit to be stored. The code tests
  each chunk on its own, so a smaller chunk after a dropped one is still
  appended (`SmallerChunkFitsAfterOverflowExample`, `ChunksWithOverflows`).

## Model

| member | source | states |
|---|---|---|
| Server.StreamChunkAggregator.constructor | framework/src/play/server/StreamChunkAggregator.java:34-36 | a new handler is idle (no message, no file, no stream, nothing stored), has done nothing and keeps the given limit |
| Server.StreamChunkAggregator.MessageReceived | framework/src/play/server/StreamChunkAggregator.java:39-97 | one call moves the fields to `Step`'s new state, appends exactly `Step`'s effects to the log, ends as `Step` says (normally or with the failed cast), and keeps the handler invariant |
| Server.Step | framework/src/play/server/StreamChunkAggregator.java:39-97 | one `messageReceived` call as a transition: other events go upstream; idle, a chunked message opens a session, a plain one goes upstream, a chunk fails the cast; in a session, a message fails the cast, an overflowing chunk flags the message, a fitting one is appended, a fitting last one completes it. Its properties are the `AggregatorProperties` lemmas below |
| Server.StripChunked | framework/src/play/server/StreamChunkAggregator.java:54-58 | `Transfer-Encoding` is dropped iff removing one `chunked` from its values leaves none, and the message is otherwise unchanged; stated by `ChunkedMessageOpensSession` and `Http.RemoveFirstEmptyIff` |
| Server.Overflows | framework/src/play/server/StreamChunkAggregator.java:75 | the limit test with the subtraction in 32-bit `int` arithmetic; `OverflowsIffExceedsLimit` states its meaning when that subtraction does not wrap |
| Server.Finalised | framework/src/play/server/StreamChunkAggregator.java:84-88 | the completed message: the stored bytes as body, their count in decimal as `Content-Length`, everything else kept; stated by `CompletedMessageHeaders` |
| AggregatorProperties.OtherEventPassesThrough | framework/src/play/server/StreamChunkAggregator.java:41-44 | an event that is neither message nor chunk is sent upstream unchanged, in any state, and the state is untouched |
| AggregatorProperties.PlainMessagePassesThrough | framework/src/play/server/StreamChunkAggregator.java:67-70 | with no session, a non-chunked message is sent upstream unchanged and no session is opened |
| AggregatorProperties.ChunkedMessageOpensSession | framework/src/play/server/StreamChunkAggregator.java:50-61 | a chunked message opens a session: message kept, file named by the fresh name, stream open, nothing stored; `Transfer-Encoding` vanishes iff its values were `[]` or `[chunked]`, otherwise the message is unchanged; other headers, body and flag kept |
| AggregatorProperties.ContinueWrittenOnlyForExpectation | framework/src/play/server/StreamChunkAggregator.java:62-66 | exactly one `100 Continue` is written iff an idle handler receives a chunked message whose first `Expect` value is `100-continue`; every other event writes none |
| AggregatorProperties.SessionRejectsMessages | framework/src/play/server/StreamChunkAggregator.java:71-74 | during a session, a message fails the cast to `HttpChunk` and changes nothing |
| AggregatorProperties.IdleRejectsChunks | framework/src/play/server/StreamChunkAggregator.java:48-49 | with no session, a chunk fails the cast to `HttpMessage` and changes nothing |
| AggregatorProperties.OverflowsIffExceedsLimit | framework/src/play/server/StreamChunkAggregator.java:75 | when the limit minus the chunk length does not wrap, the test holds iff a limit is set and stored plus chunk length exceeds it |
| AggregatorProperties.OverflowingChunkIsDropped | framework/src/play/server/StreamChunkAggregator.java:75-76 | a chunk failing the 32-bit limit test is not stored; the message gets `Warning` with the fixed value, every other header and the body are kept, nothing is emitted |
| AggregatorProperties.OverflowFlagIsIdempotent | framework/src/play/server/StreamChunkAggregator.java:75-76 | a second overflowing chunk leaves the flagged state exactly as it was |
| AggregatorProperties.FittingChunkIsAppended | framework/src/play/server/StreamChunkAggregator.java:77-78 | a fitting non-last chunk is appended whole, nothing else changes, and the stored length stays within a non-negative limit |
| AggregatorProperties.FittingLastChunkCompletesMessage | framework/src/play/server/StreamChunkAggregator.java:78-92 | a fitting last chunk emits one message whose body is all stored bytes plus the chunk, whose `Content-Length` is that length in decimal (read back exactly), with other headers as before, and the handler is idle |
| AggregatorProperties.OverflowingLastChunkKeepsSession | framework/src/play/server/StreamChunkAggregator.java:75-80 | an overflowing last chunk emits nothing and leaves the session, its file and its stream open |
| AggregatorProperties.EmptyLastChunkCompletesMessage | framework/src/play/server/StreamChunkAggregator.java:75-92 | with a limit of at least -1, an empty last chunk always completes the message with the bytes stored so far |
| AggregatorProperties.StepKeepsInvariant | framework/src/play/server/StreamChunkAggregator.java:39-97 | every event keeps the invariant: message, file and stream are set together, nothing is stored outside a session, and the stored length never exceeds a non-negative limit |
| AggregatorProperties.RunKeepsInvariant | framework/src/play/server/StreamChunkAggregator.java:39-97 | the invariant holds after any sequence of events |
| AggregatorProperties.RunAppend | framework/src/play/server/StreamChunkAggregator.java:39-97 | handling `a` then `b` is handling `a + b`: states chain and effects concatenate |
| AggregatorProperties.FittingChunksAreConcatenated | framework/src/play/server/StreamChunkAggregator.java:75-79 | non-last chunks whose total fits are stored as their concatenation, in order, and emit nothing |
| AggregatorProperties.Kept | framework/src/play/server/StreamChunkAggregator.java:75-78 | the chunks that get written: never more of them than the input holds, and each one a chunk of the input; `KeptAppend` states the order and `ChunksWithOverflows` that the stored bytes are their concatenation |
| AggregatorProperties.KeptAppend | framework/src/play/server/StreamChunkAggregator.java:75-78 | one more chunk keeps the chunks kept so far, in the same order, and is appended after them exactly when it does not overflow after their bytes |
| AggregatorProperties.ChunksWithOverflows | framework/src/play/server/StreamChunkAggregator.java:74-79 | non-last chunks, overflowing or not, emit nothing; the file gains exactly the kept chunks' bytes in order, and the message carries the `Warning` header iff some chunk was dropped, otherwise it is unchanged |
| AggregatorProperties.BodyCompletesSession | framework/src/play/server/StreamChunkAggregator.java:74-92 | from a fresh session, a complete body within the limit emits exactly one message carrying the concatenated body, and the handler is idle |
| AggregatorProperties.WholeMessageWithinLimit | framework/src/play/server/StreamChunkAggregator.java:48-92 | a chunked message plus a body within the limit gives the optional `100 Continue`, then one message with the concatenated body; the handler ends idle |
| AggregatorProperties.CompletedMessageHeaders | framework/src/play/server/StreamChunkAggregator.java:84-88 | the completed message's body is the stored bytes, its `Content-Length` reads back as their count, and its `Warning` and `Expect` headers are the sender's |
| AggregatorProperties.ConsecutiveMessagesAreIndependent | framework/src/play/server/StreamChunkAggregator.java:89-91 | two chunked messages in a row give the effects of each handled alone from idle; nothing of the first carries over |
| AggregatorProperties.BodyWithinLimitExample | framework/src/play/server/StreamChunkAggregator.java:75-92 | limit 10, chunks `ABC` and last `DE`: one message, body `ABCDE`, `Content-Length: 5`, no `Warning` |
| AggregatorProperties.OverflowingLastChunkExample | framework/src/play/server/StreamChunkAggregator.java:75-80 | limit 4, a single last chunk `ABCDE`: nothing is emitted; the session stays open with a flagged message and nothing stored |
| AggregatorProperties.SmallerChunkFitsAfterOverflowExample | framework/src/play/server/StreamChunkAggregator.java:75-78 | limit 10, chunks of 8, 5 and last 2 bytes: the 5-byte chunk is dropped, the 2-byte one is kept, and the message has 10 bytes and `Warning` |
| AggregatorProperties.ContinueBeforeMessageExample | framework/src/play/server/StreamChunkAggregator.java:62-66 | with `Expect: 100-continue` and a last chunk `X`: one `100 Continue`, then the message with body `X` |
| AggregatorProperties.ConcatAppend | framework/src/play/server/StreamChunkAggregator.java:78 | the bytes of two chunk sequences are the bytes of each, concatenated |
| AggregatorProperties.Chunks | framework/src/play/server/StreamChunkAggregator.java:74 | one chunk event per chunk, in order |
| Http.WrapInt32 | framework/src/play/server/StreamChunkAggregator.java:75 | Java `int` subtraction: the result is in the 32-bit range, congruent to the exact value modulo 2^32, and equal to it when no overflow occurs |
| Http.SetHeader | framework/src/play/server/StreamChunkAggregator.java:76 | the header's values become exactly `[value]`; every other header, the body and the chunked flag are kept |
| Http.SetHeaderIdempotent | framework/src/play/server/StreamChunkAggregator.java:76 | setting the same header value twice equals setting it once |
| Http.RemoveHeader | framework/src/play/server/StreamChunkAggregator.java:57 | the header is gone; every other header, the body and the flag are kept |
| Http.RemoveFirst | framework/src/play/server/StreamChunkAggregator.java:55 | `List.remove`: one occurrence fewer (as a multiset) and one element shorter when present; unchanged when absent |
| Http.RemoveFirstEmptyIff | framework/src/play/server/StreamChunkAggregator.java:55-58 | after removing `chunked`, the list is empty iff it was `[]` or `[chunked]` |
| Text.Decimal | framework/src/play/server/StreamChunkAggregator.java:86 | `String.valueOf`: non-empty, all digits, no leading zero except for `0` |
| Text.DecimalRoundTrip | framework/src/play/server/StreamChunkAggregator.java:84-86 | reading the decimal text back gives the number |
| Text.TrimStartFacts | framework/src/play/test/Fixtures.java:206 | dropping leading blanks leaves a suffix, drops only blank characters, and the rest does not start with one |
| Text.TrimEndFacts | framework/src/play/test/Fixtures.java:206 | dropping trailing blanks leaves a prefix, drops only blank characters, and the rest does not end with one |
| Text.TrimFacts | framework/src/play/test/Fixtures.java:57 | `trim` returns an infix surrounded only by characters up to U+0020 that neither starts nor ends with one |
| Text.TrimEmptyIffBlank | framework/src/play/test/Fixtures.java:57 | a trimmed string is empty iff every character is at most U+0020 |
| FixtureSql.Segments | framework/src/play/test/Fixtures.java:56 | at least one segment, none containing `;` |
| FixtureSql.JoinSegments | framework/src/play/test/Fixtures.java:56 | gluing the segments back with `;` gives the script |
| FixtureSql.SegmentsJoin | framework/src/play/test/Fixtures.java:56 | `;`-free parts are recovered exactly from their join |
| FixtureSql.DropTrailingEmpty | framework/src/play/test/Fixtures.java:56 | a prefix of the parts; everything dropped is empty |
| FixtureSql.Split | framework/src/play/test/Fixtures.java:56 | `split(";")`: the `;`-segments without the trailing empty ones, or the whole script when it has no `;`; stated by `StatementsAreNonBlankSegments`, `DropTrailingEmpty` and `JoinSegments` |
| FixtureSql.NonBlank | framework/src/play/test/Fixtures.java:57 | every part kept is a non-blank part of the input, and there are no more of them than parts |
| FixtureSql.NonBlankSingle | framework/src/play/test/Fixtures.java:57-59 | a single part is kept iff it is not blank; with `NonBlankAppend` this fixes the filter on every input, order included |
| FixtureSql.NonBlankCounts | framework/src/play/test/Fixtures.java:56-59 | each non-blank part is kept exactly as often as it occurs, and no blank part is kept |
| FixtureSql.NonBlankAppend | framework/src/play/test/Fixtures.java:56-60 | filtering distributes over concatenation |
| FixtureSql.NonBlankDropsEmptyTail | framework/src/play/test/Fixtures.java:56-57 | dropping trailing empty parts does not change which statements run |
| FixtureSql.StatementsAreNonBlankSegments | framework/src/play/test/Fixtures.java:55-61 | the executed statements are the filter of the `;`-segments (trailing empty ones make no difference), each `;`-free and non-blank; every non-blank segment is executed as often as it occurs and no blank one is |
| FixtureSql.ExecuteSQL | framework/src/play/test/Fixtures.java:55-61 | the loop executes exactly `Statements(script)`, in order |
| FixtureSql.DeleteTableStmt | framework/src/play/test/Fixtures.java:610-622 | the statement that empties a table, chosen by the JDBC URL's vendor; stated by `DeleteTableStmtByVendor` |
| FixtureSql.DeleteTableStmtByVendor | framework/src/play/test/Fixtures.java:610-622 | MySQL and Oracle: `TRUNCATE TABLE n;`; PostgreSQL: `TRUNCATE TABLE n cascade;`; Solid: `DELETE FROM n` without `;`; others: `DELETE FROM n;` |
| FixtureSql.TablesToEmpty | framework/src/play/test/Fixtures.java:148-149 | the listed tables other than `play_evolutions`, in order; stated by `TablesToEmptyCounts` and `Fixtures.TablesToEmptyAppend` |
| FixtureSql.TablesToEmptyCounts | framework/src/play/test/Fixtures.java:148-155 | `play_evolutions` is never emptied; every other table is emptied as often as it is listed |
| FixtureKeys.IndexOf | framework/src/play/test/Fixtures.java:48 | the first position of the character, or the length when it is absent |
| FixtureKeys.ParseKey | framework/src/play/test/Fixtures.java:206-209 | a match gives a non-empty type without `(` and a non-empty id without `)` that spell the text as `Type(id)` |
| FixtureKeys.ParseKeyText | framework/src/play/test/Fixtures.java:206-209 | every such `Type(id)` text is matched, with the same two groups |
| FixtureKeys.QualifiedType | framework/src/play/test/Fixtures.java:210-212 | the result starts with `models.` and equals the input iff the input already did |
| FixtureKeys.QualifiedTypeIdempotent | framework/src/play/test/Fixtures.java:210-212 | qualifying twice is qualifying once |
| FixtureKeys.ReadKey | framework/src/play/test/Fixtures.java:205-212 | a key is used iff its trimmed text matches; its type then starts with `models.` and its id is non-empty and `)`-free |
| FixtureKeys.ReadKeyText | framework/src/play/test/Fixtures.java:205-212 | a well-formed `Type(id)` without surrounding blanks is read as its qualified type and id |
| FixtureYaml.SerializeFailsIffNullElement | framework/src/play/test/Fixtures.java:392-399 | flattening fails (the `toString` of a null list element) iff some reachable list holds a null |
| FixtureYaml.SerializedNamesArePrefixed | framework/src/play/test/Fixtures.java:382-411 | every parameter added is named `prefix.`… |
| FixtureYaml.FlatMappingSerialization | framework/src/play/test/Fixtures.java:382-411 | for a flat mapping with distinct keys and no null element, each non-null entry gives exactly `prefix.key`: a scalar as `[text]`, a list as its elements' strings in order; nulls and nothing else add names |
| FixtureYaml.ToJavaString | framework/src/play/test/Fixtures.java:397 | `toString()` of a list element: a scalar's text, `[a, b]` for a list, `{k=v}` for a mapping; it gives the values in `Serializes` |
| FixtureYaml.SerializeEntries | framework/src/play/test/Fixtures.java:382-411 | the flattening of the first `n` entries; what it computes is stated by `NestedMappingSerialization`, `SerializeFailsIffNullElement` and `SerializedNamesArePrefixed` |
| FixtureYaml.Leaves | framework/src/play/test/Fixtures.java:382-411 | an independent definition of what flattening should produce: one leaf per scalar or list at any depth, named by the keys on its path joined with `.`, in document order; every leaf is a scalar or a list |
| FixtureYaml.EntryLeaves | framework/src/play/test/Fixtures.java:384-410 | the leaves of one entry: none for a null, one named `prefix.key` for a scalar or list, the nested mapping's own leaves under `prefix.key` |
| FixtureYaml.NestedMappingSerialization | framework/src/play/test/Fixtures.java:382-411 | for a mapping at any depth with no null list element and distinct leaf names, flattening succeeds, adds exactly the leaf names, gives each leaf the strings its value stands for, and keeps every other parameter |
| FixtureYaml.EntrySerialization | framework/src/play/test/Fixtures.java:384-410 | one entry adds exactly its own leaves to the parameters of the entries before it, with their values, and keeps every other parameter |
| FixtureYaml.Serialize | framework/src/play/test/Fixtures.java:382-411 | the recursive loop computes `SerializeAll`, whose result `NestedMappingSerialization` and `SerializeFailsIffNullElement` describe |
| FixtureYaml.FailureIsFinal | framework/src/play/test/Fixtures.java:396-397 | once an entry fails, the whole flattening fails |
| FixtureDependencies.FieldParamInjective | framework/src/play/test/Fixtures.java:417 | distinct fields have distinct `object.` parameters |
| FixtureDependencies.LookupIds | framework/src/play/test/Fixtures.java:420-429 | succeeds iff every `relationType-id` is cached, giving the cached keys in order; otherwise names the first uncached id |
| FixtureDependencies.ResolveDependencies | framework/src/play/test/Fixtures.java:414-436 | the loop over properties computes `Resolve` |
| FixtureDependencies.ResolveFrom | framework/src/play/test/Fixtures.java:415-435 | the remaining properties processed from a partial result; stated by `ResolveFromSuccess`, `ResolveFromFailure`, `ResolvableSucceeds` and `ResolveFromReferences` |
| FixtureDependencies.RelationReferences | framework/src/play/test/Fixtures.java:415-435 | an independent list of the references a resolution should record: one per relation property whose parameter is present, in property order, with the cached keys of its ids |
| FixtureDependencies.ResolveFromReferences | framework/src/play/test/Fixtures.java:415-435 | with distinct relation names and cached ids, a resolution (which succeeds by `ResolvableSucceeds`) records exactly `RelationReferences` of the remaining properties, after those already recorded |
| FixtureDependencies.RelationParamsStep | framework/src/play/test/Fixtures.java:416-417 | the relation parameters of one more property |
| FixtureDependencies.WithoutStep | framework/src/play/test/Fixtures.java:431 | removing one more relation parameter keeps `params` equal to the input without the removed set |
| FixtureDependencies.ResolveFromSuccess | framework/src/play/test/Fixtures.java:414-436 | on success every relation parameter is removed, all other parameters are kept, and each reference is some relation property's resolution |
| FixtureDependencies.ResolveFromFailure | framework/src/play/test/Fixtures.java:420-427 | a failure names a present relation field and one of its ids that is not cached |
| FixtureDependencies.ResolvableSucceeds | framework/src/play/test/Fixtures.java:414-436 | if every present relation field names only cached ids, resolving succeeds |
| FixtureDependencies.ResolvedMeansResolvable | framework/src/play/test/Fixtures.java:414-436 | with distinct relation names, success means every present relation field named only cached ids |
| FixtureDependencies.ResolveSpec | framework/src/play/test/Fixtures.java:414-436 | on success the binder gets the parameters without the relation fields and each reference is a field's cached keys in id order; a failure names an uncached id; with distinct relation names it succeeds iff all ids are cached, and then records exactly one reference per present relation field, in property order |
| Fixtures.Register | framework/src/play/test/Fixtures.java:241-244 | the cache with `type-id` of each type of the hierarchy mapped to the object's key; stated by `RegisterFacts` and `FixtureProperties.LoadedObjectTakesOverSuperclassNames` |
| Fixtures.RegisterFacts | framework/src/play/test/Fixtures.java:238-244 | registering maps `type-id` of every listed type to the key and leaves every other cache entry as it was |
| Fixtures.LoadEntry | framework/src/play/test/Fixtures.java:205-245 | one top-level key: skipped, refused with the error Java throws, or saved and registered; stated by `FixtureProperties.LoadEntryFacts` and `FixtureProperties.DuplicateCheckIsOnOwnType` |
| Fixtures.Load | framework/src/play/test/Fixtures.java:199-249 | `loadModels` on a parsed document; stated by `FixtureProperties.LoadOps`, `LoadFromSaves`, `LoadedObjectsAreCached`, `NothingToLoad` and `ReloadFailsOnFirstObject` |
| Fixtures.DeleteStatementsAppend | framework/src/play/test/Fixtures.java:148-156 | one more table adds its statement at the end |
| Fixtures.TablesToEmptyAppend | framework/src/play/test/Fixtures.java:148-149 | one more listed name is emptied at the end unless protected |
| Fixtures.FixtureLoader.constructor | framework/src/play/test/Fixtures.java:49 | the cache starts empty and nothing has been issued |
| Fixtures.FixtureLoader.ClearIdCache | framework/src/play/test/Fixtures.java:51-53 | the cache is empty and nothing is issued |
| Fixtures.FixtureLoader.Delete | framework/src/play/test/Fixtures.java:71-84 | clears the cache and issues exactly `DeleteOps(types)` |
| Fixtures.FixtureLoader.DeleteDatabase | framework/src/play/test/Fixtures.java:125-162 | clears the cache and issues exactly `DeleteDatabaseOps(url, names)` |
| Fixtures.FixtureLoader.LoadModels | framework/src/play/test/Fixtures.java:199-260 | the cache, the issued operations and the error are those of `Load` on the old cache |
| Fixtures.FixtureLoader.LoadEntries | framework/src/play/test/Fixtures.java:205-249 | the loop over the top-level keys computes `LoadFrom` |
| Fixtures.FixtureLoader.LoadObject | framework/src/play/test/Fixtures.java:206-245 | one key: its error, new cache and save are `LoadEntry`'s |
| Fixtures.FixtureLoader.RegisterAll | framework/src/play/test/Fixtures.java:238-244 | the cache becomes `Register` of the old cache over the hierarchy |
| FixtureProperties.LoadEntryFacts | framework/src/play/test/Fixtures.java:206-244 | a key is skipped iff it does not match; a loaded object was not cached, saves its own qualified known type and id, and is registered under its type and superclasses; the save holds the entry's body (an empty mapping for a null one), serialized under `object` and with its relation parameters resolved against the objects loaded before, and it carries the references that resolution found |
| FixtureProperties.LoadFromOps | framework/src/play/test/Fixtures.java:205-249 | earlier operations are kept as a prefix; only saves of known `models.` types and `afterFixtureLoad` are issued, the latter iff no error |
| FixtureProperties.MatchingKeys | framework/src/play/test/Fixtures.java:205-212 | the keys of the top-level entries that match the `type(id)` pattern of the `models` package, in document order; never more than the entries |
| FixtureProperties.LoadFromSaves | framework/src/play/test/Fixtures.java:205-249 | a load from the `i`-th entry on that gets through every entry issues, after the earlier operations, exactly one save per matching key, in document order and with that key's type and id, and then one `afterFixtureLoad` |
| FixtureProperties.LoadOps | framework/src/play/test/Fixtures.java:199-249 | `loadModels` issues only saves of known `models.` classes and, iff it succeeds, `afterFixtureLoad`; when it succeeds its operations are exactly one save per matching key of the document, in document order, followed by a single `afterFixtureLoad` |
| FixtureProperties.LoadFromKeepsCache | framework/src/play/test/Fixtures.java:205-246 | loading never removes a cache name, success or failure |
| FixtureProperties.LoadFromRegisters | framework/src/play/test/Fixtures.java:238-244 | after a successful load, every matching entry is cached under its type and every superclass |
| FixtureProperties.LoadedObjectsAreCached | framework/src/play/test/Fixtures.java:238-244 | the cache only grows, and after success every object of the document can be referred to under its type and each superclass |
| FixtureProperties.SkipUnparseable | framework/src/play/test/Fixtures.java:206-207 | keys that do not match are passed over without effect |
| FixtureProperties.NothingToLoad | framework/src/play/test/Fixtures.java:203-249 | a non-mapping document, or one with no matching key, changes nothing and only issues `afterFixtureLoad` |
| FixtureProperties.ReloadFailsOnFirstObject | framework/src/play/test/Fixtures.java:213-215 | loading the same document again without clearing the cache fails on its first object with `DuplicateId`, saving nothing and leaving the cache alone |
| FixtureProperties.DuplicateCheckIsOnOwnType | framework/src/play/test/Fixtures.java:213-215 | an entry is refused as a duplicate iff its own `type-id` is cached; superclass names do not count |
| FixtureProperties.LoadedObjectTakesOverSuperclassNames | framework/src/play/test/Fixtures.java:238-244 | a loaded object overwrites the `type-id` name of its type and of every superclass, so a sibling class with the same id takes over the shared superclass name |
| FixtureProperties.DeleteDatabaseEmptiesUnprotectedTables | framework/src/play/test/Fixtures.java:146-158 | constraints off first, then on and `afterFixtureLoad` last; every unprotected listed table gets its vendor statement, and every statement is for one |
| FixtureProperties.UnprotectedTablesAreEmptied | framework/src/play/test/Fixtures.java:148-155 | every listed table other than `play_evolutions` gets its vendor delete statement |
| FixtureProperties.OnlyUnprotectedTablesAreEmptied | framework/src/play/test/Fixtures.java:148-155 | every delete statement is for a listed table other than `play_evolutions` |
| FixtureProperties.DeleteRemovesEveryType | framework/src/play/test/Fixtures.java:71-84 | constraints off, one `deleteAll` per type in order, constraints on, `afterFixtureLoad` |

## Left out

- Netty's `ChannelHandlerContext`, channel and event objects are not modelled. `sendUpstream`, `write` and `fireMessageReceived` become entries of an effect log. The remote address passed with the fired message is not kept.
- The temporary file is not modelled. Its random UUID name is a parameter (`freshName`), and the file is the sequence of bytes written to it. `flush`, `close`, `Play.tmpDir`, I/O errors and `FileChannelBuffer` are not modelled; the completed body is the stored bytes.
- The `volatile` fields and the concurrency they hint at are not modelled: calls are sequential.
- Netty header names are compared exactly, not case-insensitively.
- The `HttpMessage` library class is modelled as a plain record, without its own checks (how `isChunked` is derived, what `setContent` accepts).
- The message object that the Java code mutates in place and later hands upstream is a value here, so aliasing with earlier holders of that object is not captured.
- A `ClassCastException` is reported as the outcome `CastFailure`, without unwinding the pipeline.
- Several Fixtures entry points are not part of this model, because they are file, class-path and list plumbing around the modelled operations: `executeSQL(File)`, `loadModels(String name)` with its file lookup and template rendering, the `String...` and `List` overloads of `load`/`loadModels`/`delete`, `loadModelsFromString`, `deleteAllModels`, the deprecated `load`/`deleteAll`, the `loadYaml*` readers and `deleteDirectory`.
- YAML parsing (SnakeYAML) is outside the model: `loadModels` gets the parsed document. A `ScannerException` therefore cannot arise, and duplicate keys inside one mapping are not modelled.
- The `Date` and `<<<{file}` branches of `serialize` are left out. They need a date formatter and the virtual file system. Such values are treated as scalars.
- `serializeKey`, which turns resolved keys into binder parameters, is not part of this model. A resolved relation is kept as a `Reference` holding the keys in order.
- `Binder.bind`, `_save`, copying `Map` and `byte[]` fields by reflection, and `keyValue` are not modelled. The save is logged as an operation, and an object's key is its type and fixture id. Failures inside `_save` are not modelled.
- The class loader and the model factories are replaced by a `Schema`: the known classes, their listed properties and their superclasses.
- JDBC is not modelled: `deleteDatabase` takes the table names as a parameter, and `addTables` and the Solid schema listing are not part of this model. The vendor SQL of `disableForeignKeyConstraints` and `enableForeignKeyConstraints` is recorded as a single operation each.
- The exceptions `deleteAll` throws in `delete(types)` are caught and logged in Java. Here every `deleteAll` is recorded as attempted.
- Logging is not modelled.
- Fixtures.FixtureLoader.LoadModels: wrapping exceptions into `RuntimeException` messages is not modelled; the error is returned as a `LoadError` value.
- Fixtures.FixtureLoader.LoadModels: the Java load has no rollback. Neither does the model: earlier saves and cache entries stay after an error, and `afterFixtureLoad` is not issued.
- The array-search check `Arrays.binarySearch(dontDeleteTheseTables, name) < 0` is modelled as non-membership. This is exact because the array has a single element.
