# A verified model of the universal-setup kernel

This project models the parts of the universal-setup repository that other code
relies on without checking again, and proves what they promise. Nothing was
executed: every statement below is a Dafny contract or lemma over all inputs.

* **Canonical JSON** (`Json`, `JsonParser`, `JsonExact`, `JsonSound`,
  `JsonTheorems`, `JsonStrings`, `JsonParserObject`, `JsonSpelling`,
  `JsonReading`, `JsonGrammar`, `JsonBudget`, `JsonLimits`, `Utf8`). The bounded
  recursive-descent parser is a class that advances a position and a value count.
  It is proved equal to a specification parser, errors included. That parser
  returns a value exactly on the spellings of that value within the limits;
  `JsonSpelling` says what these are without mentioning any parser. It is also
  the exact inverse of the canonical printer: a canonical text is read back as
  its value exactly when the value is within the limits. Every accepted text
  normalises to one that is no longer. The budget
  object, which decides the same question from addressed values without building
  text or tree, succeeds exactly when the parser would.
* **Checksums** (`Sha256`, `Sha256Constants`, `Sha256Bits`, `Sha256Text`,
  `Sha256Stream`, `JsonDigest`, `Adler32`). Streaming SHA-256 over any sequence
  of updates, and through the 4096-byte canonical sink, is the digest of sections
  5.1.1 and 6.2 of FIPS 180-4. The tables of constants are proved to be roots of
  primes, and the word functions are characterised bit by bit. The deferred-modulo
  Adler-32 is the per-byte checksum of RFC 1950.
* **Component resolution** (`ComponentGraph`, `ComponentSearch`,
  `ComponentOrder`, `ComponentSelection`, `ComponentResolver`, `PythonInput`,
  `PythonResolver`, `ProductResolver`, `ResolverAgreement`, `BundleTransition`,
  `BundleSelection`, `ResolverRecords`, `ResolverOrder`). Both iterative depth-first searches are proved equal to
  one recursive search by unwinding their stacks; the search returns an order
  exactly when the graph is acyclic. The result is also characterised over the
  component records alone, and does not depend on their arrangement.
* **Publisher protocol** (`PublisherDocuments`, `PublisherResponse`,
  `PublisherAnswers`, `PublisherReceipts`, `PublisherReports`, `PublisherClient`,
  `PublisherOneShot`, `PublisherOneShotReports`, `PublisherService`,
  `PublisherConversation`, `PublisherRecovery`, `PublisherRecoveryExact`).
  Client, one-shot adapter and service run against an arbitrary world:
  transports that throw or lose replies, workers that vanish, handles that do
  not close, memory that runs out. A whole exchange joins one service run, the
  delivery of its replies and one client call. What a caller is told is stated on
  the members of the documents involved, in the words they hold.
* **Saturating counters** (`DiagnosticMetrics`). Any number of threads interleave
  loads, failing and succeeding compare-exchanges and flag stores.

`Bytes`, `JsonObject`, `Wrappers` and `Sequences` are shared helpers.

## Conventions

* A byte is an integer below 256; machine integers are bounded integers, and
  wrap-around is written out where the source relies on it.
* Masks and shifts that select disjoint bit fields are written as remainder,
  division and addition. SHA-256 words are bounded integers with exclusive-or
  and conjunction defined bit by bit.
* A thrown exception is a result. Each message with which the parser refuses a
  text has its own constructor.
* JSON objects are key-ascending sequences of members, as `std::map` keeps them.
* Where comments and code differ, the code is followed. The comment at
  `external/zlib/upstream/adler32.c:69` promises only speed for single bytes;
  the branch below it also gives a different sum for an incoming high half that
  is not reduced (`Adler32.OneByte`, `Adler32.OverrunExample`).

## Model

| member | source | states |
|---|---|---|
| `Utf8.ValidUtf8` | runtime/base/usk_utf8_path.cpp:67-101 | The byte loop accepts exactly the byte strings that are nothing, or one encoded scalar value followed by such a string (section 4 of RFC 3629) |
| `Utf8.ValidIffUtf8` | runtime/base/usk_utf8_path.cpp:67-101 | Recognising lead and continuation bytes with the overlong, surrogate and range checks decides that inductive definition, both ways |
| `Utf8.EncodingOfUnit` | runtime/base/usk_json.cpp:136-153 | Every sequence the recogniser takes is what `append_utf8` pushes for some scalar value |
| `Utf8.UnitOfEncoding` | runtime/base/usk_json.cpp:136-153 | Everything `append_utf8` pushes for a scalar value is recognised with its own length |
| `Utf8.EncodeBits` | runtime/base/usk_json.cpp:136-153 | What `append_utf8` pushes has as many bytes as section 3 of RFC 3629 gives the range of the scalar value; the first byte's mark says how many, the others start with bits 10, and the payload bits put together are the scalar value |
| `Utf8.EscapeCannotRepair` | runtime/base/usk_json.cpp:237-286 | A complete encoded scalar between two byte strings gives UTF-8 exactly when both are UTF-8 already |
| `JsonStrings.RunsExact` | runtime/base/usk_json.cpp:237-286 | A well-escaped literal decodes to UTF-8 exactly when every maximal run of unescaped bytes is UTF-8 by itself |
| `JsonStrings.LiteralAccepted` | runtime/base/usk_json.cpp:237-286 | A literal is accepted exactly when it is well escaped, within the string budget, and all its raw runs are UTF-8 |
| `JsonExact.StringExact` | runtime/base/usk_json.cpp:380-411 | The parser reads an escaped string back to its bytes, or refuses it for its size or its encoding and for nothing else |
| `JsonExact.NumberExact` | runtime/base/usk_json.cpp:198-219 | Every 64-bit unsigned integer is read back from its decimal digits |
| `JsonExact.DecimalLength` | runtime/base/usk_json.cpp:419-425 | No 64-bit unsigned integer needs more than the twenty digits the printer reserves |
| `JsonExact.ValueExact` | runtime/base/usk_json.cpp:172-187 | Inside any text, a canonical value is read back exactly, at any depth and count, when it fits, and refused when it does not |
| `JsonExact.ParseOfCanonical` | runtime/base/usk_json.cpp:578-588 | The parser accepts the canonical text of an ordered value exactly when text length, depth, value count, string sizes and encodings are within the limits, and then returns that value |
| `JsonSound.StringSound` | runtime/base/usk_json.cpp:237-286 | A decoded string re-escapes to no more bytes than were read, surrogate pairs and short escapes included |
| `JsonSound.ValueSound` | runtime/base/usk_json.cpp:172-187 | Every value the parser returns is ordered, within the limits, counted exactly and encoded no longer than it was read |
| `JsonTheorems.RoundTrip` | runtime/base/usk_json.cpp:578-588 | Parsing the canonical text of a fitting value gives the value back |
| `JsonTheorems.Normalises` | runtime/base/usk_json.cpp:162-169 | For every accepted text the canonical text is no longer, is accepted under the same limits and gives the same value |
| `JsonTheorems.CountBounded` | runtime/base/usk_json.cpp:172-187 | An accepted text never holds more values than it has bytes |
| `JsonTheorems.CanonicalInjective` | runtime/base/usk_json.cpp:413-452 | Different values have different canonical texts, even with strings that are not UTF-8 |
| `JsonTheorems.EqualIsIdentity` | runtime/base/usk_json.cpp:628-657 | The recursive comparison holds exactly of equal values |
| `JsonTheorems.EqualIffSameEncoding` | runtime/base/usk_json.h:96-97 | Comparing two values is the same as comparing their canonical texts |
| `Bytes.LessExact` | runtime/base/usk_json.h:22 | The order of members in a map is by the first byte that differs, or by length where none does |
| `JsonReading.SpellingRead` | runtime/base/usk_json.cpp:172-320 | Every spelling of a value within the limits is read as that value: any run of the four space bytes between tokens, each scalar raw, as a short escape, as hexadecimal digits of either case or as a surrogate pair, and members in any order |
| `JsonGrammar.ParseExact` | runtime/base/usk_json.cpp:162-320 | For every text and every value: the parser returns the value exactly when the text spells it and all limits are kept |
| `JsonGrammar.RefusalExact` | runtime/base/usk_json.cpp:162-320 | A text is refused exactly when it is too long or spells no value within the limits |
| `JsonGrammar.EscapeChosen` | runtime/base/usk_json.cpp:380-411 | Among the spellings of a byte the printer takes the short escape, else for a control byte the `\u` escape in lower case, else the byte itself |
| `JsonParserObject.Parser.SkipSpaces` | runtime/base/usk_json.cpp:322-327 | Moves to the first byte that is not space, tab, carriage return or line feed |
| `JsonParserObject.Parser.Literal` | runtime/base/usk_json.cpp:189-196 | Accepts exactly the token at the position and moves behind it |
| `JsonParserObject.Parser.Number` | runtime/base/usk_json.cpp:198-219 | The overflow-guarded loop returns the decimal value of all digits, or the leading-zero, overflow or floating-point error |
| `JsonParserObject.Parser.Digits` | runtime/base/usk_json.cpp:204-213 | The guarded multiplication overflows exactly when the whole digit string denotes 2^64 or more |
| `JsonParserObject.Parser.UnicodeEscape` | runtime/base/usk_json.cpp:220-235 | Reads four hexadecimal digits of either case to their value, or tells a truncated escape from an invalid digit |
| `JsonParserObject.Parser.UnicodeUnit` | runtime/base/usk_json.cpp:266-281 | A `\u` escape, with the low half a high surrogate demands, appends one encoded scalar value, which `JsonGrammar.ParseExact` fixes; a high half alone, a wrong low half and a low half alone are three errors |
| `JsonParserObject.Parser.StringLiteral` | runtime/base/usk_json.cpp:237-286 | The decoding loop returns the decoded bytes, or the first error in source order |
| `JsonParserObject.Parser.ReadValue` | runtime/base/usk_json.cpp:172-187 | The class agrees with the specification parser on result, error, position and value count |
| `JsonParserObject.Parser.ReadItems` | runtime/base/usk_json.cpp:288-300 | The same for the element loop |
| `JsonParserObject.Parser.ReadMembers` | runtime/base/usk_json.cpp:302-320 | The same for the member loop, with duplicate keys refused where they are met |
| `JsonParserObject.Parser.Run` | runtime/base/usk_json.cpp:162-169 | The same for a whole text, with nothing allowed behind the value |
| `JsonParserObject.ParseText` | runtime/base/usk_json.cpp:578-581 | `parse`: the byte budget first, then the specification parser's value or error |
| `JsonBudget.CanonicalBudget.Bytes` | runtime/base/usk_json.cpp:483-487 | Spends a byte count exactly when it fits, with no subtraction or addition that wraps |
| `JsonBudget.CanonicalBudget.CountValue` | runtime/base/usk_json.cpp:488-493 | Counts a value exactly when depth and value budgets allow it |
| `JsonBudget.CanonicalBudget.Text` | runtime/base/usk_json.cpp:494-505 | A string is admitted exactly when the parser would admit it and its escaped length fits, and costs that length |
| `JsonBudget.CanonicalBudget.Digits` | runtime/base/usk_json.cpp:529-533 | Repeated division counts the decimal digits |
| `JsonBudget.CanonicalBudget.NodeValue` | runtime/base/usk_json.cpp:522-568 | A value is admitted exactly when what the view shows in its place is affordable and the viewed array is met there only where it may be; it then costs exactly its encoding and its count |
| `JsonBudget.CanonicalBudget.Entries` | runtime/base/usk_json.cpp:538-553 | The entries standing for the viewed array are admitted exactly when affordable and free of that array |
| `JsonBudget.CanonicalBudget.FieldMember` | runtime/base/usk_json.cpp:512-521 | A member costs its comma, key, colon and value, and the value's own size is returned |
| `JsonBudget.CanonicalBudget.ObjectMember` | runtime/base/usk_json.cpp:465-481 | The root object is admitted exactly when affordable, the selected member is there, and the viewed array is met, once, inside it |
| `JsonLimits.OwnershipExact` | runtime/base/usk_json.cpp:535-553 | The flags kept during the traversal admit exactly the objects in which the viewed array occurs once, inside the selected member, and its entries do not contain it |
| `JsonLimits.RequireEncodedSize` | runtime/base/usk_json.cpp:611-619 | Succeeds exactly when the parser would accept the encoded object, and returns the length of that encoding |
| `JsonLimits.RequireMember` | runtime/base/usk_json.cpp:605-609 | The same, with the selected member present; returns the length of that member's encoded value |
| `JsonLimits.RequireArrayViewMember` | runtime/base/usk_json.cpp:621-626 | The same for the object with the viewed array's elements substituted, and only when that array occurs once, inside the selected member |
| `Sha256.RotrExact` | runtime/base/usk_sha256.cpp:14-17 | Rotating by `n` moves the high bits down by `n` and the low `n` bits to the top, for every `n` up to 32 |
| `Sha256.ShrExact` | runtime/base/usk_sha256.cpp:90-93 | Shifting right by `n` is division by 2^n |
| `Sha256Constants.PrimesExact` | runtime/base/usk_sha256.cpp:72-80 | The numbers the constants are taken from are the first 64 primes |
| `Sha256Constants.ConstantsExact` | runtime/base/usk_sha256.cpp:72-80 | Each of the 64 constants is the first 32 fractional bits of the cube root of its prime, as an inequality between cubes |
| `Sha256Constants.InitialExact` | runtime/base/usk_sha256.h:23-25 | Each of the eight initial words is the first 32 fractional bits of the square root of its prime, as an inequality between squares |
| `Sha256Bits.RotrAt` | runtime/base/usk_sha256.cpp:14-17 | Bit `i` of a rotation is bit `i + n` modulo 32 |
| `Sha256Bits.ChAt` | runtime/base/usk_sha256.cpp:101 | The choice takes each bit from the second word where the first has a one, else from the third |
| `Sha256Bits.MajAt` | runtime/base/usk_sha256.cpp:104 | The majority takes at each bit what two of the three words have |
| `Sha256Bits.BigSigmasAt` | runtime/base/usk_sha256.cpp:100-103 | Each bit of the two functions of a round is the parity of three rotated bits |
| `Sha256Bits.SmallSigmasAt` | runtime/base/usk_sha256.cpp:90-93 | Each bit of the two functions of the schedule is the parity of two rotated bits and a shifted one |
| `Sha256Text.WordReads` | runtime/base/usk_sha256.cpp:82-88 | A word of a block is its four bytes, most significant first |
| `Sha256Text.PaddingReads` | runtime/base/usk_sha256.cpp:47-59 | The marker, the fewest zero bytes that fill the block, and eight bytes that read as the bit length |
| `Sha256Text.HexReads` | runtime/base/usk_sha256.cpp:62-67 | A word is printed as eight lower-case hexadecimal digits that stand for it |
| `Sha256Text.WordsInOrder` | runtime/base/usk_sha256.cpp:64-66 | A digest is its words in order, eight digits each |
| `Sha256Stream.Sha256State.Update` | runtime/base/usk_sha256.cpp:23-40 | For any state and any data the message absorbed so far grows by exactly the data; refused after finishing |
| `Sha256Stream.Sha256State.Transform` | runtime/base/usk_sha256.cpp:70-111 | Schedule and rounds over the word arrays are the compression function of section 6.2 of FIPS 180-4, whose constants and word functions the rows above characterise |
| `Sha256Stream.Sha256State.Finish` | runtime/base/usk_sha256.cpp:42-68 | For messages below 2^61 bytes the lower-case digest of the whole padded message, however it was split; refused a second time |
| `JsonDigest.CanonicalDigest.Append` | runtime/base/usk_json.cpp:354-361 | Bytes pass through the 4096-byte buffer in order and complete |
| `JsonDigest.AppendEscaped` | runtime/base/usk_json.cpp:380-411 | Plain runs and escapes written to a sink amount to the quoted string |
| `JsonDigest.AppendCanonical` | runtime/base/usk_json.cpp:413-452 | Writing a value to a sink appends its canonical text |
| `JsonDigest.Sha256Canonical` | runtime/base/usk_json.cpp:659-664 | The streamed digest of a value is the SHA-256 of its canonical text |
| `Adler32.Mod28Exact` | external/zlib/upstream/adler32.c:31-35 | The division-free form is the remainder modulo 65521 below 2^28 |
| `Adler32.Mod32Exact` | external/zlib/upstream/adler32.c:36-40 | The same below 2^32 |
| `Adler32.Mod63Exact` | external/zlib/upstream/adler32.c:41-53 | The same below 2^63 |
| `Adler32.NMaxIsLargest` | external/zlib/upstream/adler32.c:11-12 | A block length keeps the second sum within 32 bits exactly up to 5552 |
| `Adler32.BlockBoundAttained` | external/zlib/upstream/adler32.c:11-12 | The bound is met: 255-valued bytes over the largest reduced sums reach it |
| `Adler32.SumBytes` | external/zlib/upstream/adler32.c:14-18 | The unrolled additions keep both sums congruent to the per-byte checksum and below 2^32 throughout a block |
| `Adler32.SumBlock` | external/zlib/upstream/adler32.c:96-106 | A block of 5552 bytes, reduced once, is the per-byte checksum |
| `Adler32.OneByte` | external/zlib/upstream/adler32.c:69-78 | The single-byte branch is the per-byte checksum exactly when the incoming high half and the new low half do not reach twice 65521 |
| `Adler32.Short` | external/zlib/upstream/adler32.c:84-94 | One subtraction and one small remainder suffice for fewer than sixteen bytes, from any incoming checksum |
| `Adler32.Adler32Z` | external/zlib/upstream/adler32.c:61-125 | For any incoming checksum and length the per-byte checksum, exactly unless the one-byte overrun occurs; a missing buffer gives 1 |
| `Adler32.OverrunExample` | external/zlib/upstream/adler32.c:69-78 | A concrete unreduced checksum for which the single-byte branch is not the per-byte checksum |
| `Adler32.ReducedNeverOverruns` | external/zlib/upstream/adler32.c:61-125 | With the high half reduced, as every checksum has it, nothing is excepted |
| `Adler32.ConcatSums` | external/zlib/upstream/adler32.c:142-149 | The checksum halves of a concatenation from those of its parts and the second length |
| `Adler32.Combine` | external/zlib/upstream/adler32.c:133-155 | Combining the checksums of any two byte strings gives the checksum of their concatenation; a negative length gives the invalid value |
| `ComponentSearch.VisitSound` | tools/usk_component_resolver.py:99-121 | One search either extends a dependency-first order by everything reachable, or returns a real cycle |
| `ComponentSearch.OrderedIsAcyclic` | tools/usk_component_resolver.py:93-121 | A graph with a complete dependency-first order has no cycle |
| `ComponentSearch.SearchExact` | tools/usk_component_resolver.py:93-121 | The search over all components returns an order exactly when the graph is acyclic, and otherwise a witness that is a cycle of it |
| `ComponentOrder.SearchWithPositions` | tools/usk_component_resolver.py:99-121 | The loop over stack, active path and positions returns what the recursive search does, the same cycle included |
| `ComponentOrder.SearchWithStack` | apps/cli/usk_product_info.cpp:155-175 | The loop that keeps only a stack returns the same order, and fails exactly when the recursive search finds a cycle |
| `ComponentOrder.TopologicalOrder` | tools/usk_component_resolver.py:93-121 | The outer loop of the first form, over all starts |
| `ComponentOrder.DependencyFirstOrder` | apps/cli/usk_product_info.cpp:151-176 | The outer loop of the second form, over all starts |
| `ComponentSelection.ClosureIsLeast` | tools/usk_component_resolver.py:129-136 | The reachable set contains the seeds, is closed under dependencies and lies inside every other such set |
| `ComponentSelection.SelectClosure` | tools/usk_component_resolver.py:129-136 | The work-list loop selects exactly the reachable set, whatever the order and repetitions of the seeds |
| `ComponentSelection.FilterDependencyFirst` | tools/usk_component_resolver.py:142 | Keeping a dependency-closed set of a dependency-first order leaves it dependency-first and without duplicates |
| `ComponentResolver.SortExact` | tools/usk_component_resolver.py:36 | Sorting leaves no id less than an earlier one, and every id as often as it was given |
| `ComponentResolver.ResolutionExact` | tools/usk_component_resolver.py:54-142 | The resolver returns exactly when budgets and declarations are sound, references known, the graph acyclic, requests known and the closure free of conflicts; the result is dependency-first and as a set the least closure of the seeds; a cycle error carries a real cycle |
| `ResolverRecords.SelectedRecords` | tools/usk_component_resolver.py:123-142 | Over the records alone: the result holds every required component, the defaults if asked for, the requests and all dependencies; no two of its components conflict, and each is declared and comes once, behind its dependencies |
| `ResolverRecords.SelectedLeast` | tools/usk_component_resolver.py:123-142 | It lies inside every other set that holds those and is closed under dependencies |
| `ResolverRecords.SuccessExact` | tools/usk_component_resolver.py:54-142 | Over the records alone: resolution succeeds exactly when the budgets and declarations are sound, references are known and acyclic, requests are declared, and some set without conflicts holds what is demanded |
| `ResolverOrder.RearrangedAlike` | tools/usk_component_resolver.py:36-142 | With sound declarations, permuting the components or any of their reference lists changes nothing, not even which error is reported |
| `ResolverOrder.OrderDoesNotMatter` | tools/usk_component_resolver.py:36-142 | With any declarations, one arrangement resolves exactly when another does, and to the same sequence |
| `PythonInput.TypedResolution` | tools/usk_component_resolver.py:39-142 | On arguments of the right types the resolution of arbitrary values is the resolution of components |
| `PythonInput.UntypedRefused` | tools/usk_component_resolver.py:54-128 | Whatever is passed, success means that every argument had the right type and that those typed arguments resolve to the same order |
| `PythonResolver.BuildGraph` | tools/usk_component_resolver.py:65-84 | From entries of any type the declaration loop builds the graph, or returns the first error in source order with its witnesses |
| `PythonResolver.CheckRequests` | tools/usk_component_resolver.py:125-128 | The first request that is no string, no identifier or not declared is returned |
| `PythonResolver.CheckReferences` | tools/usk_component_resolver.py:86-91 | The reference loops return the first self-conflict or unknown reference in sorted order |
| `PythonResolver.CheckConflicts` | tools/usk_component_resolver.py:138-141 | The conflict loops return the first conflicting pair in sorted order |
| `PythonResolver.ResolveComponentIds` | tools/usk_component_resolver.py:39-142 | The whole procedure, on arguments of any type, is the specified resolution, every error and witness included |
| `BundleTransition.ResolveTransition` | tools/usk_component_resolver.py:145-173 | The procedure is the specified transition, every error included |
| `BundleTransition.TransitionExact` | tools/usk_component_resolver.py:145-173 | A transition succeeds exactly when the selection is well formed, the previous bundle resolves it and it already holds every required component and dependency there, and the candidate resolves it too; the two checks in between add nothing |
| `BundleTransition.TransitionPreserves` | tools/usk_component_resolver.py:145-173 | A successful transition returns the candidate's least closure of the previous selection and the required components: nothing selected is lost, and what is neither required, selected before nor depended upon stays out |
| `ResolverRecords.TransitionSelects` | tools/usk_component_resolver.py:145-173 | Over the candidate's records alone: a transition holds the previous selection, what is required and all dependencies, and no more |
| `BundleTransition.RemovalRefused` | tools/usk_component_resolver.py:168-171 | A candidate that drops a selected component is always refused |
| `ProductResolver.CheckIds` | apps/cli/usk_product_info.cpp:92-108 | A reference list passes exactly when its identifiers are valid, strictly ascending, known and not the owner |
| `ProductResolver.ReadComponents` | apps/cli/usk_product_info.cpp:258-303 | The two passes over the components succeed exactly on sound declarations, and fill the graph with them |
| `ProductResolver.ResolveSelection` | apps/cli/usk_product_info.cpp:145-208 | The procedure returns the specified selection or fails |
| `ResolverRecords.ProductSelects` | apps/cli/usk_product_info.cpp:145-208 | Over the records alone: the selection holds the required components, the defaults, the requests and all dependencies, and is the least such set |
| `ResolverAgreement.InspectAndResolve` | apps/cli/usk_product_info.cpp:258-303 | Reading a bundle and resolving it, as one procedure |
| `ResolverAgreement.ResolversAgree` | apps/cli/usk_product_info.cpp:145-208 | On a sorted bundle whose identifiers both grammars judge alike, both implementations refuse the same inputs and otherwise return the same sequence |
| `ResolverAgreement.ProductDomain` | apps/cli/usk_product_info.cpp:145-303 | With no such assumption: the second implementation accepts exactly the sorted inputs in its own grammar that the first resolves with defaults, and returns the same sequence |
| `BundleSelection.DeriveBundle` | tools/usk_bundle_selection.py:72-88 | Filtering and editing in two passes gives the derived bundle, or fails where a retained component's dependency is left out; what it gives is described by the next row |
| `BundleSelection.BundleExact` | tools/usk_bundle_selection.py:72-88 | The derived components are the included ones in their order; each keeps its id, required flag and dependencies, keeps of its conflicts exactly the included ones in their order, and is selected by default unless it is required and was not; nothing is derived exactly where an included component has a dependency that is left out |
| `BundleSelection.DerivedBundleSelectsItself` | tools/usk_bundle_selection.py:194-199 | For every resolved selection no dependency is missing, the derived bundle resolves with no requests to exactly the retained components, and deriving again changes nothing |
| `PublisherDocuments.IdentityNamesCall` | runtime/command/usk_publisher_client_context_internal.cpp:87-114 | The receipt of an invocation names its command and the digest of its whole request, whatever identity fields follow |
| `PublisherReceipts.ReceiptTold` | runtime/command/usk_publisher_client_context_internal.cpp:79-114 | Which members of a request its receipt repeats, command by command and with the object each is read from: every one is a text of at most 1024 bytes, kept under its own name |
| `PublisherDocuments.UnknownInjective` | runtime/command/usk_publisher_client_context_internal.cpp:115-119 | The bytes of an unknown document determine the receipt inside it |
| `PublisherResponse.ValidateResponse` | runtime/command/usk_publisher_response_internal.cpp:323-469 | Parses the reply under its limits and dispatches on command, schema and status; the drift report of a verification, refusals and required recovery are read in full |
| `PublisherResponse.RefusedExact` | runtime/command/usk_publisher_response_internal.cpp:430-462 | A reply is read as refused exactly when its schema is right, its status is failed, it is no drift report and its diagnostic members are readable |
| `PublisherReports.CallTold` | runtime/command/usk_publisher_client_context_internal.cpp:150-196 | Nine command names are handed over, each only with its own request schema; plans and recoveries reach the wire as submitted |
| `PublisherReports.AnswerTold` | runtime/command/usk_publisher_client_context_internal.cpp:197-234 | For every handed-over request and every reply, read off the parsed reply and the returned document: a passing reply returns the completed value; a failed one says refused, with the listed code it was sent or publisher_failed, and a payload that holds command, request digest and the diagnostic sent; required recovery says so in the same way; a bound drift report is returned as sent; a denied dispatch says refused with its reason, or that nothing was sent where its reference is malformed or memory runs out; everything else is the unknown document |
| `PublisherClient.PublisherClientContext.TryPrepare` | runtime/command/usk_publisher_client_context_internal.cpp:150-196 | A request becomes ready exactly when this call's own arguments decode, identify and prepare, with the fallback bytes already owned |
| `PublisherClient.PublisherClientContext.Deliver` | runtime/command/usk_publisher_client_context_internal.cpp:197-234 | From the moment the request may have left, the answer is the table's, through every catch clause |
| `PublisherClient.PublisherClientContext.Execute` | runtime/command/usk_publisher_client_context_internal.cpp:147-234 | From any earlier state of the context: the request is handed over exactly when its own arguments prepare it, planning and recovery requests unchanged; then the answer tells what `PublisherReports.AnswerTold` states, otherwise it says that nothing was sent |
| `PublisherAnswers.UncertaintyIsKept` | runtime/command/usk_publisher_client_context_internal.cpp:197-234 | After a possible dispatch that the transport did not deny, the answer is an accepted service outcome or the unknown document, and an error reads as neither constant text |
| `PublisherAnswers.UnknownIsOfThisCall` | runtime/command/usk_publisher_client_context_internal.cpp:177-184 | Unknown answers of two calls agree only if the calls agree on command and request digest |
| `PublisherOneShot.EnvelopeFits` | runtime/command/usk_one_shot.cpp:40-58 | An envelope around a result of at most 32768 bytes is never oversized, whatever the request id |
| `PublisherOneShot.BareUnknownFits` | runtime/command/usk_one_shot.cpp:40-58 | The replacement for an oversized response is never oversized itself |
| `PublisherOneShot.CandidateOutcome` | runtime/command/usk_one_shot.cpp:40-58 | The recursive formatter ends, and returns the outcome or that replacement |
| `PublisherOneShot.Inspect` | runtime/command/usk_one_shot.cpp:522-536 | A capability inspection succeeds exactly on an accepted observation, whose envelope is never oversized, and is otherwise an ordinary refusal, never an unknown outcome |
| `PublisherOneShot.Observe` | runtime/command/usk_one_shot.cpp:538-558 | A service observation succeeds exactly on an accepted one that holds what is published, and is otherwise the unknown outcome, even when the transport denies dispatch |
| `PublisherOneShot.Effect` | runtime/command/usk_one_shot.cpp:560-589 | Unless the transport denies dispatch, only an accepted reply gives another exit code than the unknown outcome's, and an ordinary failure cannot occur |
| `PublisherOneShotReports.CandidateEmits` | runtime/command/usk_one_shot.cpp:40-58 | The printed document holds the request id, status word, result and error code it was given, with that exit code; above 16 MiB the bare unknown outcome with exit code 5 takes its place |
| `PublisherOneShotReports.AnswerPrinted` | runtime/command/usk_one_shot.cpp:564-570 | For every reply: pass prints ok with the completed value and exit code 0, failed prints refused with exit code 4, recovery_required prints that word with exit code 5, each with the code and diagnostic sent or the retained reply; a bound drift report prints ok; anything else is the unknown response |
| `PublisherOneShotReports.DenialPrinted` | runtime/command/usk_one_shot.cpp:571-585 | A refused admission prints refused with exit code 2; a cancelled or conflicting operation prints refused with its code, its diagnostic and exit code 4, or the unknown response where its reference is malformed |
| `PublisherOneShot.Dispatch` | runtime/command/usk_one_shot.cpp:506-589 | The unknown response exists before the transport runs; each family of commands then answers as above, and without a transport nothing is sent |
| `PublisherService.BrokerVolumeObserver.Close` | apps/daemon/usk_publisher_lab_service.cpp:399-408 | The query volume is closed at most once and a failed attempt keeps its handle |
| `PublisherService.PublisherServiceRun.Dispose` | apps/daemon/usk_publisher_lab_service.cpp:435-458 | Worker, then volume: the first unconfirmed closure is raised |
| `PublisherService.PublisherServiceRun.Narrow` | apps/daemon/usk_publisher_lab_service.cpp:459-471 | Only a terminal can lower the effects flag; a failed terminal is refused exactly on a definite refusal or no effects |
| `PublisherService.PublisherServiceRun.ExecuteRegisteredChild` | apps/daemon/usk_publisher_lab_service.cpp:415-472 | The effects flag is down exactly if the stage was never begun or a fully disposed worker reported no effects; an unresolved worker or volume always raises |
| `PublisherService.PublisherServiceRun.Serve` | apps/daemon/usk_publisher_lab_service.cpp:606-681 | The run's final fields say which closures were confirmed and whether effects may exist; outside verify-only mode no reply of status failed hides an unresolved worker or volume, and a failure document of that status rests on a stage never begun, a definite refusal or a report of no effects; an unresolved run, a lost wire and a missing terminal give recovery_required; in verify-only mode an unresolved run is reported as failed |
| `PublisherConversation.RefusedSaysFailed` | runtime/command/usk_publisher_response_internal.cpp:457-462 | If the client answers that its request was refused, the reply it read had status failed |
| `PublisherConversation.HeardOfRun` | runtime/command/usk_publisher_response_internal.cpp:430-469 | If every reply of an unresolved run requires recovery, no document that spells one of them, and no loss of it, makes the client say completed or refused |
| `PublisherConversation.Converse` | runtime/command/usk_publisher_client_context_internal.cpp:197-234 | For every run, every transport that hands over one of the service's replies or loses them, and every call outside verify-only mode: an answer of refused means that no worker or volume is left unresolved, and an unresolved run is answered as requiring recovery or as unknown |
| `PublisherRecoveryExact.ClosedExact` | runtime/command/usk_publisher_response_internal.cpp:112-116 | Counting members and looking each one up admits exactly the listed fields |
| `PublisherRecoveryExact.ObservationExists` | runtime/command/usk_publisher_response_internal.cpp:162-183 | Every decoded request has native bindings the check accepts, one that allows finalizing and one that does not |
| `PublisherRecoveryExact.EnvelopeRebuilt` | runtime/command/usk_publisher_response_internal.cpp:117-161 | An accepted envelope is one built from a live endpoint, with any further members in its admission record, and its payload |
| `PublisherRecoveryExact.EnvelopePasses` | runtime/command/usk_publisher_response_internal.cpp:117-161 | Every such envelope is accepted and gives its payload back |
| `PublisherRecoveryExact.ProjectionPasses` | runtime/command/usk_publisher_response_internal.cpp:60-106 | Every document projected from a maintenance request and an acceptable binding, and every completion whose reviewed plan is the recomputed one, passes the client's check |
| `PublisherRecoveryExact.AcceptedIsHonest` | runtime/command/usk_publisher_response_internal.cpp:197-226 | Every member of an accepted payload, its seal included, is fixed by its own binding and, for an apply, by two digests |
| `PublisherRecoveryExact.ReplyExact` | runtime/command/usk_publisher_response_internal.cpp:108-226 | For every reply whatever: it is accepted exactly when it is the envelope of the projection or completion of some acceptable binding |
| `PublisherRecoveryExact.OfferedIffFinalizable` | runtime/command/usk_publisher_response_internal.cpp:63-89 | An accepted reply offers finalizing exactly when its binding allows it |
| `PublisherRecoveryExact.AcceptedOffers` | runtime/command/usk_publisher_response_internal.cpp:63-89 | In the words of the binding: an accepted reply lists finalize and its effect exactly for a started and confirmed commit that is committing, committed or recovery_required and compatible, or for the published repair, and otherwise lists nothing |
| `PublisherRecoveryExact.DocumentOffers` | runtime/command/usk_publisher_response_internal.cpp:63-89 | The projection of every binding lists the same |
| `PublisherRecoveryExact.NothingOffered` | runtime/command/usk_publisher_response_internal.cpp:197-202 | An accepted reply lists nothing if a pending effect is unreconciled, if nothing is pending, nothing is next and effects are incomplete, if the commit has not started, or if it is unconfirmed outside a repair |
| `PublisherRecoveryExact.ProgressTold` | runtime/command/usk_publisher_response_internal.cpp:162-183 | Every accepted reply has a binding that tells all eight facts these laws speak of |
| `DiagnosticMetrics.StepKeeps` | runtime/base/usk_diagnostic_metrics.cpp:22-32 | Every step of every thread keeps the counters capped sums and the flag explained |
| `DiagnosticMetrics.CountersExact` | runtime/base/usk_diagnostic_metrics.cpp:22-32 | Under every interleaving a counter is the sum of all amounts committed to it, capped at 2^64 - 1 |
| `DiagnosticMetrics.FlagExact` | runtime/base/usk_diagnostic_metrics.cpp:25-29 | The flag is never set before some sum has passed the maximum, and with no store outstanding it is set exactly then |
| `DiagnosticMetrics.ScopeIdsDistinct` | runtime/base/usk_diagnostic_metrics.cpp:92-99 | Scope ids are strictly increasing until the sequence saturates |

## Left out

- The string sink of the canonical printer: it is represented by the function `Canonical`; only the digest sink is modelled as a procedure.
- `canonical_object` and `CanonicalObjectView` as text: a view is the sequence of its fields, and its text is the canonical text of the object they show.
- Stack depth of the recursive parser and printer, and moves and copies of `Value`: values are immutable data.
- BundleTransition.ResolveTransition: takes typed components and a typed selection; the resolver it calls does not.
- PythonInput.UntypedRefused: a Python string is a byte string, and an object that is none of the expected types is known only by how it prints.
- The order in which a derived bundle resolves: only the selected set is preserved, because an unselected component can pull a dependency earlier in the full graph.
- Files, archives and receipts of bundle selection: they rest on code outside the modelled files.
- PublisherClient.PublisherClientContext.Execute: the install-plan and recovery decoders, the preparation callback and the checks of a reply of status pass are arbitrary functions, and allocation can fail only at the five named points; the endpoint name and the C wrappers are not modelled.
- PublisherOneShot.Dispatch: starts after the request document is decoded; the checks of a capability observation are an arbitrary predicate; the framing of standard input and output, and allocation failure while formatting an admission refusal, are not modelled.
- PublisherService.PublisherServiceRun.Serve: channel, admission, broker and worker are outcomes of the environment, a wire that never ends is a lost wire, a request channel is there to reply on, exceptions outside `std::exception` and errors after the worker stage that claim a definite refusal are not modelled.
- PublisherResponse.ValidateResponse: what a reply of status pass must hold for its command is an arbitrary function of command, request and reply.
- PublisherRecoveryExact.ReplyExact: requests are taken as their decoder leaves them, member names are an enumeration with infinitely many others, and the digest is an arbitrary function of a document, so the byte-level JSON of these documents is not modelled.
- The remaining families of passing replies, the install-plan decoder and the capability checks: long flat comparisons against constants.
- Clocks, sinks, snapshots and the enable and disable exchange of the diagnostics: they would only add easy members.
- Windows handles, access control, service control, named pipes and job objects: foreign calls.
