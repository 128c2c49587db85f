# Verified model of a deterministic instruction linter

This project models the algorithmic core of a linter for the instruction files that coding agents read, and
proves what that core is for. The linter parses such files into an intermediate representation, validates and
snapshots it, derives fingerprinted diagnostics, compares them with a baseline, resolves organization policies,
plans fixes and writes bounded output. The modules follow that structure.

| modules | component |
|---|---|
| `Text`, `Utf`, `Utf8`, `Numerals`, `Separated`, `Sorting`, `ByteOrder`, `Occurrences` | JavaScript strings as UTF-16 code units, their order and UTF-8 bytes; decimal numerals; splitting, stable sorting and counting |
| `JsonGrammar`, `TraceJsonSpec`, `TraceJsonProof`, `TraceJsonUnique`, `TraceJsonReasons`, `TraceJsonScanner` | the recogniser of trace files against the grammar of RFC 8259, sections 2 to 7 |
| `PositionIndex` | source coordinates: bytes, lines and columns |
| `IrTypes`, `AstForest`, `AstWalk`, `AstValidation` | the relationship checks on the syntax tree |
| `AuthorityFilter` | filtering a parsed repository by authority |
| `JsonGraph`, `JsonValidator`, `JsonValidatorProof` | the traversal of possibly cyclic and shared object graphs |
| `SnapshotClone`, `SnapshotCloneProof`, `SnapshotCloneExact`, `DeepFreeze` | the memoised clone and the freezing of its result |
| `CanonicalDigest`, `DiagnosticFingerprint`, `FingerprintProof` | the byte streams that are hashed |
| `DiagnosticBaseline`, `BaselineProof` | generating and comparing baselines |
| `Semver`, `OrganizationPolicy`, `PolicyProof` | version precedence and layered policy resolution |
| `RepositoryPath`, `SarifUri`, `OutputSanitization` | canonical paths, the URI codec, inert output text and keys |
| `FixPlan`, `FixPlanProof`, `FixPreview`, `FixPreviewText` | atomic fix plans, and the preview of several of them together |
| `BoundedOutput` | splitting output into bounded writes |
| `ScanProtocol` | progress, cancellation and settlement of one scan |

The recogniser, the clone, the hash, the scan and the output writer keep their state in classes with the fields
that the code updates; validators, the index, the tree walk, the matcher and the resolver are methods with the
loops of the code, proved against a definition that does not mention the loop. `dafny verify dfyconfig.toml` checks
the whole project.

## How values are modelled

A JavaScript string is a sequence of UTF-16 code units, so that lone surrogates exist. A heap of JavaScript objects
is a finite map from references to containers with their own properties in enumeration order; where an array's keys
are array indices they come in ascending order, and its `length` is kept apart. Errors that are thrown or reported
as issues are an absent value, a reason, or a false verdict; which of several issues a validator lists is not modelled.
Hashes are not modelled: the results speak of the bytes that are hashed. `JSON.stringify` occurs where the code only
compares its results for equality or sorts by them; it is taken to be injective there, and the texts it would yield
for numbers and for baseline identities are parameters. `sanitizeOutputText` is taken to leave stored baseline fields
as they are. Profile and surface identifiers are the registered ones, in which no profile has a colon
(packages/core/src/configuration-contracts.ts:7-25).

## What the code does where one might expect otherwise

- The nesting limit of the clone is not that of the unfolded tree. A finished object is passed over wherever it
  stands, so that a graph whose tree nests deeper than 256 containers can be cloned
  (`SnapshotCloneExact.SharingDodgesTheNestingLimit`). `SnapshotCloneExact.CloneExact` says exactly which graphs are.
- Canonical paths are not a fixed point of canonicalisation in one case: `./C:f` becomes `C:f`, which is rejected
  (`RepositoryPath.CanonicalizeTwiceFails`). `RepositoryPath.CanonicalizeTwice` gives the exact condition on the input:
  its first segment other than the empty one and `.` starts with a letter and a colon.
- Filtering by authority keeps events as they are, and can so leave an event that refers to a dropped rule
  (`AuthorityFilter.FilterCanInvalidate`, with a concrete valid input). `AuthorityFilter.FilterPreservesValidity` gives
  the exact condition on the input: the authority of the document of every rule that an event refers to applies in one
  of the contexts. The code reports the result as invalid otherwise. The scan itself never gets there: it builds its
  IR without events and adds activation rules after filtering (packages/cli/src/scan-command.ts:966-976 and 1726-1727),
  which `AuthorityFilter.FilterWithoutEvents` covers.
- In the number scan the cursor can pass the end of the text by one, after a trailing minus sign. Such a text is always
  rejected, however deep inside objects and arrays the number stands (`TraceJsonProof.OvershootRejects`,
  `TraceJsonProof.LoneMinusOvershoots`). `TraceJsonProof.OvershootsExactly` says exactly when it happens.
- An event of the policy log does not always name the source of the event before it. A confirmation of an enforced
  value does not become the source in effect, so that a second confirmation names the organization again
  (`PolicyProof.SecondConfirmationNamesPolicy`, with concrete layers). `PolicyProof.EventsChainExactly` gives the exact
  condition: the target has an enforced policy and an override in both layers.

## Model

| member | source | states |
|---|---|---|
| TraceJsonProof.AcceptsExactlyTraceJson | packages/cli/src/i03-commands.ts:915-1046 | The recogniser accepts a text exactly when it is white space, one RFC 8259 value and white space, where no object spells a decoded key twice, the value count is at most 65536 and the nesting at most 256 |
| TraceJsonProof.AcceptedIsJson | packages/cli/src/i03-commands.ts:915-1046 | Soundness: an accepted text has a derivation in the grammar that spells it unit for unit |
| TraceJsonProof.JsonIsAccepted | packages/cli/src/i03-commands.ts:915-1046 | Completeness: every text of the grammar within the limits is accepted |
| TraceJsonProof.ValueComplete | packages/cli/src/i03-commands.ts:980-998 | From any cursor, count and depth, white space and a rendered value are scanned to their end and every value is counted |
| TraceJsonProof.MembersComplete | packages/cli/src/i03-commands.ts:1008-1023 | Rendered members with keys distinct from those seen before are scanned to the closing brace |
| TraceJsonProof.ElementsComplete | packages/cli/src/i03-commands.ts:1032-1041 | Rendered elements are scanned to the closing bracket |
| TraceJsonProof.ValueSound | packages/cli/src/i03-commands.ts:980-998 | What a successful scan of a value passes over is white space and the rendering of a well-formed, duplicate-free, nested-within-limits value |
| TraceJsonProof.MembersSound | packages/cli/src/i03-commands.ts:1008-1023 | What a successful scan of members passes over is the rendering of members whose decoded keys are new |
| TraceJsonProof.ElementsSound | packages/cli/src/i03-commands.ts:1032-1041 | What a successful scan of elements passes over is the rendering of elements |
| TraceJsonProof.StringComplete | packages/cli/src/i03-commands.ts:930-955 | A rendered string is scanned to its closing quote and decodes to its characters |
| TraceJsonProof.StringSound | packages/cli/src/i03-commands.ts:930-955 | A scanned string is the rendering of characters and escapes of RFC 8259, section 7 |
| TraceJsonProof.NumberComplete | packages/cli/src/i03-commands.ts:956-979 | A rendered number that no number character follows is scanned to its end |
| TraceJsonProof.NumberSound | packages/cli/src/i03-commands.ts:956-979 | A scanned number that ends inside the text is a number of RFC 8259, section 6 |
| TraceJsonProof.OvershootRejects | packages/cli/src/i03-commands.ts:961-979 | Wherever a value is read, at the top or inside objects and arrays: if it leaves the cursor past the end of the text, the text is rejected as malformed |
| TraceJsonProof.LoneMinusOvershoots | packages/cli/src/i03-commands.ts:961-979 | The overshoot is real: a lone minus sign moves the cursor to one past the end and still passes the number scan |
| TraceJsonProof.OvershootsExactly | packages/cli/src/i03-commands.ts:961-998 | Reading a value within the limits passes the end of the text exactly when, after white space, only a minus sign is left |
| TraceJsonUnique.Unambiguous | packages/cli/src/i03-commands.ts:915-1046 | No text has two readings in the grammar, white space and escapes included, so that keys, values and nesting are those of the text |
| TraceJsonUnique.ValueUnique | packages/cli/src/i03-commands.ts:980-998 | Two well-formed values at the same place, each before the end, white space or a separator, are the same value |
| TraceJsonUnique.AcceptedByItsReading | packages/cli/src/i03-commands.ts:915-1046 | A JSON text is accepted exactly when its one reading repeats no decoded key and keeps the limits on values and nesting |
| TraceJsonReasons.ReasonsOfJson | packages/cli/src/i03-commands.ts:915-1046 | A JSON text is never rejected as malformed: it is rejected for a repeated decoded key or for a limit only if its reading breaks that rule |
| TraceJsonReasons.HexSpells | packages/cli/src/i03-commands.ts:937-940 | Four hexadecimal digits spell a code unit, the first digit being the most significant, in either case |
| TraceJsonReasons.LettersSpelled | packages/cli/src/i03-commands.ts:921-955 | The eight letters of short escapes with the units they stand for, the white space and the three words, and nothing else |
| TraceJsonReasons.SignsSpelled | packages/cli/src/i03-commands.ts:937-1042 | The punctuation, the digits, the exponent letters and the hexadecimal digits as literals |
| TraceJsonReasons.EscapedKeyRepeats | packages/cli/src/i03-commands.ts:1008-1012 | An object with a plain key and a key written as four hexadecimal digits is rejected as a duplicate exactly when the digits spell that key, and accepted otherwise |
| TraceJsonReasons.NestingLimit | packages/cli/src/i03-commands.ts:980-998 | Arrays nested in each other are accepted exactly up to 257 of them |
| TraceJsonScanner.PreflightTraceJson | packages/cli/src/i03-commands.ts:915-1046 | The cursor machine ends on every text, with the verdict of the grammar |
| TraceJsonScanner.Scanner.Whitespace | packages/cli/src/i03-commands.ts:921-929 | The loop moves the cursor over the white space and changes nothing else |
| TraceJsonScanner.Scanner.StringToken | packages/cli/src/i03-commands.ts:930-955 | The loop fails or stops after the closing quote, with the decoded key if asked for |
| TraceJsonScanner.Scanner.Digits | packages/cli/src/i03-commands.ts:956-960 | The loop moves over the digits and reports how many there were |
| TraceJsonScanner.Scanner.NumberToken | packages/cli/src/i03-commands.ts:961-979 | Sign, whole part, fraction and exponent leave the cursor where the recursive definition of a number ends, the possible overshoot included |
| TraceJsonScanner.Scanner.ReadValue | packages/cli/src/i03-commands.ts:980-998 | One value: cursor, count and reason of rejection are those of the recursive definition |
| TraceJsonScanner.Scanner.ReadObject | packages/cli/src/i03-commands.ts:999-1024 | One object, with its set of decoded keys |
| TraceJsonScanner.Scanner.ReadArray | packages/cli/src/i03-commands.ts:1025-1042 | One array |
| PositionIndex.BuildSourcePositionIndex | packages/core/src/ir-validation.ts:322-347 | The index holds for every offset the byte length of the prefix or the mark for the middle of a surrogate pair, and all line starts in order |
| PositionIndex.ScanScalar | packages/core/src/ir-validation.ts:327-344 | One turn of the loop: byte length of the scalar, and a line start after LF and after CR that no LF follows |
| PositionIndex.ExpectedPosition | packages/core/src/ir-validation.ts:349-373 | The lookup equals a naive scan: undefined exactly out of range or inside a pair, otherwise bytes of the prefix, line and column |
| PositionIndex.CountLineStarts | packages/core/src/ir-validation.ts:356-368 | The binary search finds the line of the offset and where it starts |
| PositionIndex.ByteOffsetsIncrease | packages/core/src/ir-validation.ts:322-373 | Byte offsets strictly increase over valid offsets |
| PositionIndex.LineStartsPrefix | packages/core/src/ir-validation.ts:322-373 | The line starts up to an offset are a prefix of all line starts, the others lie behind it |
| PositionIndex.PositionSpelled | packages/core/src/ir-validation.ts:322-373 | The position of an offset by the scalars and line ends before it: none out of range or inside a pair; otherwise bytes, number of line ends plus one, and the distance to the last of them plus one |
| AstForest.Laminar | packages/core/src/ir-validation.ts:459-465 | Comparing parents with children and neighbours only makes all ranges laminar: two nodes of a tree are ancestor and descendant with containment, or disjoint |
| AuthorityFilter.ValidIsLaminar | packages/core/src/ir-validation.ts:459-465 | In a valid IR two nodes of one source are ancestor and descendant in its tree with containment, or have disjoint ranges |
| AstForest.UniqueParent | packages/core/src/ir-validation.ts:723-863 | In a tree without repeated ids no node is listed by two parents |
| AstForest.TreeParentIsListed | packages/core/src/ir-validation.ts:723-863 | Parenthood in the tree is exactly what the child lists say |
| AstForest.RootHasNoParent | packages/core/src/ir-validation.ts:723-863 | No node of a tree lists its root |
| AstWalk.LinkChildren | packages/core/src/ir-validation.ts:728-767 | No issue exactly when each listed child exists, lies in the same source inside its parent and behind its sibling, and has one parent; then the map is the parent function |
| AstWalk.Walk | packages/core/src/ir-validation.ts:781-817 | The walk with an explicit stack ends on every graph; it reports a cycle only if there is one, otherwise it adds the nodes in an order in which children come first |
| AstValidation.CollectRoots | packages/core/src/ir-validation.ts:767-773 | The map holds the root-kind nodes of each source in table order |
| AstValidation.CheckRoot | packages/core/src/ir-validation.ts:818-851 | No issue exactly when the source has one root node, the nominated one, which covers its text |
| AstValidation.ValidateAstRelationships | packages/core/src/ir-validation.ts:723-863 | No issue exactly when the nodes of every source form one ordered tree with nested ranges; then the map is the parent function of these trees |
| AstValidation.CheckedIsForest | packages/core/src/ir-validation.ts:723-863 | The local checks and the finished walk yield the trees |
| AstValidation.ForestLinks | packages/core/src/ir-validation.ts:728-767 | In a forest of such trees all checks on child lists pass |
| AstValidation.ForestRoots | packages/core/src/ir-validation.ts:818-851 | In a forest of such trees all checks on roots pass |
| AstValidation.ForestSpelled | packages/core/src/ir-validation.ts:728-767 | In a forest each listed child exists, lies in the source and range of its parent, and starts at or behind the end of its sibling before |
| AstValidation.UnvisitedHasNoForest | packages/core/src/ir-validation.ts:853-861 | A node that no walk from a root has visited rules the trees out |
| AstValidation.ParentsAreTreeParents | packages/core/src/ir-validation.ts:727-767 | With a forest the child map is the parent function of its trees |
| AuthorityFilter.FilterPreservesValidity | packages/cli/src/scan-command.ts:387-435 | Filtering a valid IR keeps every AST, range, relationship and ownership rule for any authorities and contexts; the result is valid exactly when the authority of the document of every rule that an event refers to applies in one of the contexts |
| AuthorityFilter.FilterCanInvalidate | packages/cli/src/scan-command.ts:387-435 | A concrete valid IR, with an event that refers to a rule of a document filtered out, whose filtered IR is not valid |
| AuthorityFilter.FilterWithoutEvents | packages/cli/src/scan-command.ts:387-435 | An IR without events stays valid |
| AuthorityFilter.FilterKeeps | packages/cli/src/scan-command.ts:391-428 | What is kept: the records of the selected documents, their sources and nodes, and the imports that apply themselves |
| AuthorityFilter.KeptExactly | packages/cli/src/scan-command.ts:391-428 | Record by record: a document is in force when its entry names the profile and surface of some context; imports are kept when their document is in force and their own entry names a context too; statements, rules, sources and nodes are kept with their documents; events and targets stay |
| AuthorityFilter.DocumentsExactly | packages/cli/src/scan-command.ts:410-421 | The kept documents are those in force, unchanged but for the references to imports, which are in their old order those that are kept |
| AuthorityFilter.ForestRestricts | packages/core/src/ir-validation.ts:723-863 | Dropping whole sources leaves the trees of the others |
| AuthorityFilter.DocumentKept | packages/core/src/ir-validation.ts:874-938 | A kept document, with the ids of dropped imports removed, still satisfies its rules and owns what it lists |
| AuthorityFilter.ImportKept | packages/core/src/ir-validation.ts:940-1048 | A kept import still refers to a kept node and range and is listed by its document |
| AuthorityFilter.StatementKept | packages/core/src/ir-validation.ts:1050-1206 | A kept statement still spells its range and refers to sibling nodes of its document |
| AuthorityFilter.ActivationKept | packages/core/src/ir-validation.ts:1274-1429 | A kept activation rule still belongs to its document and source |
| AuthorityFilter.EventsKept | packages/core/src/ir-validation.ts:1508-1632 | The events stay valid exactly when the rules they refer to belong to selected documents of the given IR |
| JsonGraph.CanonicalArrayIndexUnique | packages/core/src/contract-validation.ts:275-279 | An index is spelled by one key only |
| JsonGraph.ArrayIndexSpelled | packages/core/src/contract-validation.ts:275-279 | The array indices are exactly the numbers below 2^32 - 1 written in decimal without leading zeros |
| Numerals.ShowDigits | packages/core/src/ir-snapshot.ts:556 | The decimal text of a number has its digits, the most significant first |
| JsonGraph.UnfoldStable | packages/core/src/contract-validation.ts:281-543 | The tree a graph stands for does not depend on how much depth is allowed |
| JsonGraph.NoSelfReference | packages/core/src/contract-validation.ts:281-543 | What stands for a finite tree does not contain itself |
| JsonValidator.ValidateJsonValue | packages/core/src/contract-validation.ts:281-543 | The loop over the stack ends on every finite graph, cyclic or shared, without limits too, with the verdict of the recursive reading; `ancestors` is always the set of open containers |
| JsonValidator.EnterTurn | packages/core/src/contract-validation.ts:426-541 | Entering a value: its checks, its charge and the frames pushed amount to the recursive visit |
| JsonValidator.ArrayTurn | packages/core/src/contract-validation.ts:340-393 | One property of an array |
| JsonValidator.RecordTurn | packages/core/src/contract-validation.ts:394-425 | One property of an object |
| JsonValidatorProof.AcceptsExactlyTrees | packages/core/src/contract-validation.ts:281-543 | A value is accepted exactly when it unfolds within 256 nested containers to a JSON tree that keeps every limit, its values and string bytes counted as in the tree: sharing is neither a reason to reject nor a way round |
| JsonValidatorProof.TreeCharged | packages/core/src/contract-validation.ts:281-543 | A visit charges the values and bytes of the unfolded tree, or stops where a limit breaks |
| JsonValidatorProof.NoTree | packages/core/src/contract-validation.ts:281-543 | A value that unfolds to no tree is rejected |
| JsonValidatorProof.CyclesAreRejected | packages/core/src/contract-validation.ts:281-543 | A value that contains an object which contains itself is rejected under all limits |
| SnapshotClone.Cloner.Charge | packages/core/src/ir-snapshot.ts:234-241 | Adds to the usage, and fails exactly when a total goes over its limit |
| SnapshotClone.Cloner.Inspect | packages/core/src/ir-snapshot.ts:243-255 | A string is charged its UTF-8 bytes, unless it is malformed or too long |
| SnapshotClone.Cloner.Clone | packages/core/src/ir-snapshot.ts:264-370 | The clone with its memo, open ancestors and usage, as a function of the state |
| SnapshotClone.Cloner.CloneEntries | packages/core/src/ir-snapshot.ts:306-361 | The loop over the properties of a container |
| SnapshotCloneExact.RunClone | packages/core/src/ir-snapshot.ts:257-372 | The class computes the clone function |
| SnapshotCloneExact.CloneFaithful | packages/core/src/ir-snapshot.ts:257-372 | The copy unfolds to the tree of the input, consists of new objects only, and is charged the values and bytes of the whole tree |
| SnapshotCloneExact.CloneExact | packages/core/src/ir-snapshot.ts:257-372 | The clone succeeds exactly when the graph unfolds to a tree within all limits none of whose objects is first met at the nesting limit |
| SnapshotCloneExact.SharingDoesNotMatter | packages/core/src/ir-snapshot.ts:234-372 | For graphs that nest within the limit success depends on the unfolded tree alone: sharing neither dodges nor double-trips the usage limits |
| SnapshotCloneExact.CloneRejectsCycles | packages/core/src/ir-snapshot.ts:266-268 | Whatever contains an object that contains itself is rejected |
| SnapshotCloneExact.SharingDodgesTheNestingLimit | packages/core/src/ir-snapshot.ts:269-273 | The nesting limit is not that of the tree: a graph whose tree nests 301 containers is cloned, because a finished object is passed over wherever it stands |
| SnapshotCloneProof.VisitSound | packages/core/src/ir-snapshot.ts:264-370 | One successful visit: same tree, full charge, shallow first visits, earlier copies untouched |
| SnapshotCloneExact.VisitComplete | packages/core/src/ir-snapshot.ts:264-370 | A visit succeeds when tree, room and first visits allow it |
| SnapshotCloneProof.AscendingIsDense | packages/core/src/ir-snapshot.ts:306-326 | As many distinct ascending indices below the length as there are places: the array is dense |
| DeepFreeze.Freeze | packages/core/src/ir-snapshot.ts:536-553 | The worklist ends on every graph and has then frozen exactly the objects reachable from the value |
| CanonicalDigest.StreamDetermines | packages/core/src/ir-snapshot.ts:560-606 | The stream is prefix-free: reading it from the left yields one tree, up to the order of object keys, and one rest |
| CanonicalDigest.SameStream | packages/core/src/ir-snapshot.ts:560-606 | Trees that are equal up to key order feed the same bytes |
| CanonicalDigest.DigestStreamExact | packages/core/src/ir-snapshot.ts:560-606 | Two trees feed the same bytes exactly when they are equal up to key order |
| CanonicalDigest.Hash.Write | packages/core/src/ir-snapshot.ts:563-604 | The recursive writer appends the stream of its argument to what the hash was fed |
| CanonicalDigest.Hash.WriteMembers | packages/core/src/ir-snapshot.ts:598-603 | The loop over the sorted keys |
| CanonicalDigest.DigestInput | packages/core/src/ir-snapshot.ts:560-606 | Everything hashed is the domain prefix and the stream |
| CanonicalDigest.HeaderDetermined | packages/core/src/ir-snapshot.ts:555-558 | A mark, a decimal length and a colon can be read back from the left |
| CanonicalDigest.StreamShapes | packages/core/src/ir-snapshot.ts:563-590 | Each kind of value begins with its letter; a length is a decimal count of bytes or elements and a colon |
| CanonicalDigest.ObjectShape | packages/core/src/ir-snapshot.ts:591-602 | An object is written member by member, each key with its length before its value, ascending by the bytes of the keys |
| ByteOrder.SortDependsOnSet | packages/core/src/ir-snapshot.ts:592-594 | Distinct keys sort to a list that depends on their set only |
| Sorting.StrictlyOrderedUnique | packages/core/src/ir-snapshot.ts:592-594 | A set of elements has one strictly ordered list |
| Sorting.SortOrdersStrictly | packages/core/src/ir-snapshot.ts:592-594 | Sorting distinct keys yields strictly ascending ones |
| Utf8.DecodeEncode | packages/core/src/ir-snapshot.ts:593 | Strict UTF-8 decoding undoes encoding on text without lone surrogates |
| Utf8.EncodeDecode | packages/core/src/ir-snapshot.ts:593 | Only encodings of well-formed text decode, and to that text |
| Utf8.EncodeInjective | packages/core/src/ir-snapshot.ts:593 | Different well-formed texts have different bytes |
| Utf8.ScalarBits | packages/core/src/ir-snapshot.ts:593 | The bytes of a scalar hold its bits, six to a tail byte, in the shortest of the four forms of RFC 3629, section 3 |
| Utf8.PairBits | packages/core/src/ir-snapshot.ts:593 | A surrogate pair is written as the one scalar that RFC 2781, section 2.1, assigns to it |
| FingerprintProof.PathStreamExact | packages/core/src/diagnostic-fingerprint.ts:91-110 | The bytes hashed for a path fingerprint are equal exactly when rule, version, path, anchor and the set of profiles are |
| FingerprintProof.SemanticStreamExact | packages/core/src/diagnostic-fingerprint.ts:113-129 | The bytes hashed for a semantic fingerprint are equal exactly when rule, version, the set of profiles and the map of components are |
| FingerprintProof.MethodsDiffer | packages/core/src/diagnostic-fingerprint.ts:40-52 | A path and a semantic fingerprint never hash the same bytes |
| DiagnosticFingerprint.FramesDetermine | packages/core/src/diagnostic-fingerprint.ts:33-38 | A sequence of length-prefixed frames determines its texts and how many there are |
| DiagnosticFingerprint.HashDomain | packages/core/src/diagnostic-fingerprint.ts:40-52 | The loop feeds domain, method and all fields as frames |
| DiagnosticFingerprint.StreamDeterminesFields | packages/core/src/diagnostic-fingerprint.ts:40-52 | The stream determines method and fields |
| DiagnosticFingerprint.CollectProfiles | packages/core/src/diagnostic-fingerprint.ts:54-62 | Fails on a malformed profile, otherwise the distinct profiles by their bytes |
| DiagnosticFingerprint.CollectComponents | packages/core/src/diagnostic-fingerprint.ts:64-80 | Fails on a malformed or repeated key, otherwise the filled map by the bytes of its keys |
| DiagnosticFingerprint.ComputePathFingerprint | packages/core/src/diagnostic-fingerprint.ts:91-110 | Throws or hashes the stream of the path fields in their order |
| DiagnosticFingerprint.ComputeSemanticFingerprint | packages/core/src/diagnostic-fingerprint.ts:113-129 | Throws or hashes the stream of the semantic fields in their order |
| FingerprintProof.ProfilesExact | packages/core/src/diagnostic-fingerprint.ts:54-62 | The canonical profile list depends on the set of profiles and determines it |
| FingerprintProof.ComponentsExact | packages/core/src/diagnostic-fingerprint.ts:64-80 | The canonical component list depends on the set of components and determines it |
| DiagnosticFingerprint.FrameSpelled | packages/core/src/diagnostic-fingerprint.ts:34-39 | A frame is the byte length in eight bytes, the most significant first, and the bytes |
| DiagnosticFingerprint.IdentifierSpelled | packages/core/src/diagnostic-fingerprint.ts:14 | The pattern: runs of letters and digits joined by single joiners |
| DiagnosticFingerprint.PathSpelled | packages/core/src/diagnostic-fingerprint.ts:81-110 | When a path fingerprint throws, and the literal names, order and values of what it hashes |
| DiagnosticFingerprint.SemanticSpelled | packages/core/src/diagnostic-fingerprint.ts:112-130 | The same for a semantic fingerprint |
| DiagnosticFingerprint.FieldNames | packages/core/src/diagnostic-fingerprint.ts:46-49 | Every field contributes its name and then its value; profiles and components are framed under their literal names |
| BaselineProof.NoEntryUsedTwice | packages/core/src/diagnostic-baseline.ts:632-727 | No baseline entry is used up by two diagnostics, whatever mix of exact and declared-move matches there is |
| BaselineProof.Conservation | packages/core/src/diagnostic-baseline.ts:738-758 | Matched, expired and stale together are the baseline entries; every diagnostic has one comparison, at its index, with one status |
| BaselineProof.OrderIndependent | packages/core/src/diagnostic-baseline.ts:535-774 | Permuting diagnostics with their kinds, and moves, permutes the verdicts and leaves stale entries and summary as they are |
| BaselineProof.VerdictPermuted | packages/core/src/diagnostic-baseline.ts:602-737 | The verdict on a diagnostic depends on the multisets of diagnostics and moves only |
| BaselineProof.HiddenExactly | packages/core/src/diagnostic-baseline.ts:602-737 | A diagnostic is hidden exactly when it is lint, engine and profiles are those of the baseline, and an unexpired entry is its one exact partner, or, where the baseline knows nothing of its rule at its path, its one partner under the one move declared to that path |
| BaselineProof.FreshBaselineHides | packages/core/src/diagnostic-baseline.ts:444-453 | Comparing a fresh, unexpired baseline with its own diagnostics hides exactly the lint diagnostics whose match identity occurs once among all diagnostics; the other lint diagnostics are ambiguous |
| BaselineProof.VerdictExactly | packages/core/src/diagnostic-baseline.ts:602-736 | Status, reason, visibility and entry of every verdict by the entries, diagnostics and moves with the same fields, with every comparison of instants and versions written out |
| BaselineProof.ExpiredBaselineHidesNothing | packages/core/src/diagnostic-baseline.ts:525-533 | When the expiry of the baseline is the present instant or before it, every diagnostic is visible and an entry that is used counts as expired for that reason |
| BaselineProof.ExpiredEntryHidesNothing | packages/core/src/diagnostic-baseline.ts:525-533 | The same for the expiry of the entry used, while the baseline is current |
| BaselineProof.IdentitiesSpelled | packages/core/src/diagnostic-baseline.ts:689-697 | The identities by the fields that they compare |
| BaselineProof.StaleExactly | packages/core/src/diagnostic-baseline.ts:738-750 | The entries that no verdict uses are those listed as stale, as expired exactly when their own expiry or that of the baseline is reached |
| BaselineProof.ReportExactly | packages/core/src/diagnostic-baseline.ts:738-770 | The visible indexes, the visible identifiers and all six numbers of the summary |
| BaselineProof.GeneratedExact | packages/core/src/diagnostic-baseline.ts:444-453 | A generated baseline holds the identity of every lint diagnostic once and no other |
| BaselineProof.EntriesSpelled | packages/core/src/diagnostic-baseline.ts:444-453 | A generated entry carries the finding of a lint diagnostic and the given instants, and entries ascend by the encodings of their identities |
| BaselineProof.GeneratedOrderIndependent | packages/core/src/diagnostic-baseline.ts:444-453 | Permuting the diagnostics leaves the generated entries as they are, in their order too, as long as different identities have different texts |
| BaselineProof.MatchedOrExpiredConsumes | packages/core/src/diagnostic-baseline.ts:633-737 | Exactly matched and expired verdicts use up an entry of the baseline; exactly matched ones are hidden |
| DiagnosticBaseline.CompareDiagnosticBaseline | packages/core/src/diagnostic-baseline.ts:535-770 | The loops over indexes, counts, diagnostics and entries compute the report defined by direct lookups |
| DiagnosticBaseline.CompareAll | packages/core/src/diagnostic-baseline.ts:563-737 | The loop over the diagnostics with its index maps and its set of used entries |
| DiagnosticBaseline.FindStale | packages/core/src/diagnostic-baseline.ts:738-750 | The loop over the unused entries |
| DiagnosticBaseline.GenerateDiagnosticBaseline | packages/core/src/diagnostic-baseline.ts:444-453 | First occurrences of lint identities, sorted by the bytes of their encodings |
| Occurrences.BuildIndex | packages/core/src/diagnostic-baseline.ts:326-330 | Appending to a map of lists yields for every key the ascending positions where it occurs |
| Occurrences.BuildCounts | packages/core/src/diagnostic-baseline.ts:563-570 | The counting map holds the number of occurrences of every key |
| Numerals.CompareNumericTextIsIntegerOrder | packages/core/src/organization-policy.ts:710-712 | Comparing numerals by length and then by code units is integer order, for numerals of any size |
| Semver.CompareSemver | packages/core/src/organization-policy.ts:714-746 | Undefined unless both texts are versions; otherwise the sign is the precedence of Semantic Versioning 2.0.0, section 11, and zero means the same version |
| Semver.CompareParts | packages/core/src/organization-policy.ts:731-745 | The loop over pre-release identifiers finds the first difference, or the longer list |
| Semver.PrecedenceIsTotal | packages/core/src/organization-policy.ts:714-746 | Precedence is irreflexive, antisymmetric and total on versions without build metadata |
| Semver.PrecedenceIsTransitive | packages/core/src/organization-policy.ts:714-746 | Precedence is transitive |
| Semver.LowerSpelled | packages/core/src/organization-policy.ts:714-746 | Precedence by the numbers that the parts denote; a pre-release is below its release; two pre-releases compare by identifiers |
| Semver.IdentifiersLowerSpelled | packages/core/src/organization-policy.ts:731-745 | Identifiers compare at the first place where they differ; a proper beginning is lower |
| Semver.IdentifierLowerSpelled | packages/core/src/organization-policy.ts:737-743 | Numeric identifiers compare as numbers and are below the others, which compare unit by unit |
| Semver.SameVersionExactly | packages/core/src/organization-policy.ts:702-708 | Two version texts capture the same version exactly when they are equal up to build metadata |
| Semver.ParseExact | packages/core/src/organization-policy.ts:262-263 | The pattern captures exactly the texts made of a version and optional build metadata |
| Semver.PartsSpelled | packages/core/src/organization-policy.ts:262-263 | What the parts of a version may be: numbers without leading zeros, and identifiers of letters, digits and dashes, of which numeric ones have no leading zero |
| Semver.BuildSpelled | packages/core/src/organization-policy.ts:262-263 | What build metadata may be: such identifiers, where numeric ones may have leading zeros |
| PolicyProof.TargetKeyInjective | packages/core/src/organization-policy.ts:1072-1077 | Different registered targets have different keys |
| OrganizationPolicy.ValidateOverrideLayer | packages/core/src/organization-policy.ts:1641-1766 | Succeeds exactly when every override is well-formed and no identifier or target repeats; the result is sorted by target and identifier |
| OrganizationPolicy.ResolveLayers | packages/core/src/organization-policy.ts:1864-1936 | The loops with their maps and event log yield the resolution defined target by target: enforced, else command line, else repository, else default |
| OrganizationPolicy.ApplyOverride | packages/core/src/organization-policy.ts:1881-1917 | One override: conflict, confirmation, override or first selection |
| PolicyProof.ResolveOrganizationPolicy | packages/core/src/organization-policy.ts:1773-1937 | Versions, layers and resolution together answer the request |
| PolicyProof.FailsExactly | packages/core/src/organization-policy.ts:1885-1895 | Resolution fails exactly when some override differs from the value enforced for its target |
| PolicyProof.OrderIndependent | packages/core/src/organization-policy.ts:1864-1936 | Reordering policies or overrides within their layers leaves the resolution as it is |
| PolicyProof.AnswersPermuted | packages/core/src/organization-policy.ts:1773-1937 | The same for the whole request, validation included |
| PolicyProof.EventsReplay | packages/core/src/organization-policy.ts:1919-1936 | In the sorted log the events of each target replay from nothing to the source of the final assignment, each naming the source in effect before it; a confirmation leaves the enforced source in effect |
| PolicyProof.EventsChainExactly | packages/core/src/organization-policy.ts:1881-1936 | Each event of a target names the source of the event before it, except exactly when an enforced policy meets an override in both layers |
| PolicyProof.SecondConfirmationNamesPolicy | packages/core/src/organization-policy.ts:1881-1917 | Concrete valid layers that resolve, where the second confirmation names the organization and not the first one |
| PolicyProof.ValidatedIsValid | packages/core/src/organization-policy.ts:1762-1765 | What a layer's validation lets through has distinct targets and sources of its own kind, in ascending order |
| PolicyProof.AssignmentsSpelled | packages/core/src/organization-policy.ts:1864-1917 | Where the value of every assignment comes from, with its source: the enforced policy, else the command line, else the repository, else the default policy |
| PolicyProof.EveryTargetAssigned | packages/core/src/organization-policy.ts:1867-1918 | Every target of a policy or override has an assignment |
| PolicyProof.CompatibleSpelled | packages/core/src/organization-policy.ts:1807-1832 | An engine takes a pack exactly when the registries agree and its version parses and is the minimum or of higher precedence |
| PolicyProof.LayerSpelled | packages/core/src/organization-policy.ts:1655-1765 | A layer passes exactly when it has at most 512 overrides with identifiers, sources, targets and values as required, and repeats none of the first and third |
| RepositoryPath.ValidateText | packages/core/src/repository-path.ts:52-80 | The scan reports the first control character or lone surrogate |
| RepositoryPath.CanonicalizeRelative | packages/core/src/repository-path.ts:131-182 | The checks in their order, and the kept segments joined |
| RepositoryPath.KeepSegments | packages/core/src/repository-path.ts:164-181 | The loop drops empty and dot segments and fails on a parent segment |
| RepositoryPath.CanonicalExactly | packages/core/src/repository-path.ts:185-194 | A path is canonical exactly when it is clean text without backslash and drive, and is `.` or good segments joined by single slashes |
| RepositoryPath.CanonicalizesExactly | packages/core/src/repository-path.ts:131-182 | Canonicalisation succeeds exactly for well-formed text without control character and reverse solidus, that is neither absolute nor begins with a drive, and has no parent segment |
| RepositoryPath.RejectionSpelled | packages/core/src/repository-path.ts:82-170 | The reason for which a clean text is refused, each condition written out unit by unit, in the order of the checks |
| RepositoryPath.ControlFirst | packages/core/src/repository-path.ts:52-80 | A text is refused for a control character exactly when one stands before any lone surrogate |
| RepositoryPath.CanonicalPieces | packages/core/src/repository-path.ts:164-181 | The segments of the result are those of the input, in order, other than the empty one and `.`; without any the result is `.` |
| RepositoryPath.CanonicalizeTwice | packages/core/src/repository-path.ts:131-194 | The output of a successful canonicalisation is accepted as canonical exactly when the first segment of the input other than the empty one and `.` does not start with a letter and a colon |
| RepositoryPath.CanonicalizeTwiceFails | packages/core/src/repository-path.ts:131-194 | `./C:f` canonicalises to `C:f`, which is rejected |
| SarifUri.CodecIsBijection | packages/core/src/output-sanitization.ts:85-111 | A path encodes to a URI exactly when the URI decodes to the path |
| SarifUri.DecodeEncodedPath | packages/core/src/output-sanitization.ts:85-111 | Every canonical path encodes, and decoding gives it back |
| SarifUri.EncodeDecodedUri | packages/core/src/output-sanitization.ts:95-111 | Only canonical paths come out of the decoder, and they encode to the URI they came from |
| SarifUri.EncodeSegmentIsPercentEncode | packages/core/src/output-sanitization.ts:77-82 | The two-step encoder escapes exactly the UTF-8 bytes that are not unreserved in RFC 3986, section 2.3 |
| SarifUri.ByteSpelled | packages/core/src/output-sanitization.ts:77-82 | An unreserved byte stands for itself, any other is a percent sign and two upper-case digits |
| SarifUri.EncodedMatches | packages/core/src/output-sanitization.ts:85-101 | The URI of a path passes the decoder's pattern |
| OutputSanitization.InertControls | packages/core/src/output-sanitization.ts:32-62 | The index loop drops complete colour sequences and replaces every other active unit |
| OutputSanitization.InertExactly | packages/core/src/output-sanitization.ts:22-62 | No control or direction mark comes out; a text without any is left alone, so a second pass changes nothing |
| OutputSanitization.PlainStays | packages/core/src/output-sanitization.ts:32-62 | Units that are not active come out as they are, before whatever comes of the rest |
| OutputSanitization.ColourVanishes | packages/core/src/output-sanitization.ts:32-62 | A complete colour sequence leaves nothing behind and the rest is treated by itself |
| OutputSanitization.ActiveReplaced | packages/core/src/output-sanitization.ts:32-62 | Every other control character or direction mark becomes one replacement character and the rest is treated by itself |
| OutputSanitization.FreeKey | packages/core/src/output-sanitization.ts:120-126 | The loop for a free key ends whatever keys are taken, with the smallest free suffix |
| OutputSanitization.SanitizeMembers | packages/core/src/output-sanitization.ts:117-130 | Each member is inserted in its turn with its value under a key of its own: no member overwrites another |
| FixPlan.ValidateFixPlan | packages/core/src/diagnostic-validation.ts:737-838 | No issue exactly for accepted plans: valid paths, texts within their limit, ranges inside the source that cut no surrogate pair, ascending keys, free and distinct destinations, distinct moves, disjoint edits, nothing both edited and moved |
| FixPlan.CheckOperations | packages/core/src/diagnostic-validation.ts:768-828 | The loop with its sets and its edits by source |
| FixPlanProof.KeyOrder | packages/core/src/diagnostic-validation.ts:617-622 | The byte order of the NUL-separated, zero-padded keys is the order by path, kind, and destination or numeric offset |
| FixPlanProof.EditsInOrder | packages/core/src/diagnostic-validation.ts:624-632 | In an accepted plan the edits of a source have strictly ascending starts and each ends where the next starts at the latest |
| FixPlanProof.OperationSpelled | packages/core/src/diagnostic-validation.ts:635-735 | What one operation must satisfy, exactly: its paths, its source, the limit on its text, and a range between scalars of the source |
| FixPreview.ApplyEdits | packages/evidence/src/safe-fix-pipeline.ts:745-759 | Sorting and assembling from left to right yields the text with all ranges replaced at once and the text between them kept, the same as applying the edits one by one from the last to the first |
| FixPreview.ApplyingIsSubstitution | packages/evidence/src/safe-fix-pipeline.ts:745-759 | For an accepted plan sorting leaves the edits as they are, and both ways of applying them agree |
| FixPreview.SortedInOrder | packages/evidence/src/safe-fix-pipeline.ts:739-752 | Edits of a source of which no two overlap are strictly ascending and disjoint once sorted |
| FixPreview.NeighboursSuffice | packages/evidence/src/safe-fix-pipeline.ts:950-968 | In the list sorted by source, start, end and plan no two edits overlap exactly when no two neighbours do |
| FixPreview.ConflictsFound | packages/evidence/src/safe-fix-pipeline.ts:950-968 | Comparing neighbours after sorting finds a conflict exactly when some two edits of the selected plans overlap |
| FixPreview.Collect | packages/evidence/src/safe-fix-pipeline.ts:867-875 | The operations of the plans in their order, as long as their total is within the limit |
| FixPreview.Register | packages/evidence/src/safe-fix-pipeline.ts:910-949 | The loop over the operations fails exactly for a destination that is taken or shared or a source moved twice; otherwise it has collected the edits and the moved and edited sources |
| FixPreview.CheckNeighbours | packages/evidence/src/safe-fix-pipeline.ts:957-968 | The loop over neighbouring edits |
| FixPreview.GroupBySource | packages/evidence/src/safe-fix-pipeline.ts:978-983 | The map holds for each edited source its edits in their order |
| FixPreview.Preview | packages/evidence/src/safe-fix-pipeline.ts:867-1013 | A preview succeeds exactly when each plan is accepted, all operations together satisfy the conditions of one plan apart from the order of keys, and each edited source changes within the byte limit; it yields the new text of each edited source |
| FixPreview.PreviewWellFormed | packages/evidence/src/safe-fix-pipeline.ts:745-759 | The new text of a well-formed source is well-formed, so that its bytes decode to it, and differs from the old one |
| FixPreviewText.NewTextStands | packages/evidence/src/safe-fix-pipeline.ts:745-759 | The new text of every selected edit stands in the previewed text at its start plus the length changes of the earlier edits of that source |
| FixPreviewText.OldTextStands | packages/evidence/src/safe-fix-pipeline.ts:745-759 | Every unit outside all ranges stands in the previewed text, moved by the length changes of the edits before it |
| FixPreviewText.PreviewLength | packages/evidence/src/safe-fix-pipeline.ts:745-759 | Nothing else stands there: the length is the old one plus all length changes |
| FixPreviewText.OneEdit | packages/evidence/src/safe-fix-pipeline.ts:745-759 | One selected edit yields the text before its range, its new text and the text behind its range |
| FixPreviewText.OverlapSpelled | packages/evidence/src/safe-fix-pipeline.ts:739-743 | Two edits of a source overlap exactly when they start together or each starts before the other ends |
| FixPreview.OrderIndependent | packages/evidence/src/safe-fix-pipeline.ts:867-1013 | Whatever order the plans are selected in, the same is accepted and the same texts come out |
| BoundedOutput.PlanChunks | packages/cli/src/bounded-output.ts:26-56 | The preflight succeeds exactly for well-formed text within the total limit, with greedy cuts between scalars; it names the reason otherwise |
| BoundedOutput.WriteBoundedOutput | packages/cli/src/bounded-output.ts:22-64 | A malformed or oversized document causes no write; otherwise a writer with room takes all pieces |
| BoundedOutput.WrittenSpellsDocument | packages/cli/src/bounded-output.ts:58-63 | The pieces concatenate to the text |
| BoundedOutput.EveryPieceFits | packages/cli/src/bounded-output.ts:46-55 | Every piece is well-formed, not empty and within the limit of one write |
| BoundedOutput.PieceBytes | packages/cli/src/bounded-output.ts:46-55 | In bytes: no piece has more than 1048576 of them |
| BoundedOutput.FewestWrites | packages/cli/src/bounded-output.ts:46-55 | No other split between scalars into fitting pieces needs fewer writes |
| BoundedOutput.BoundedWriter.Write | packages/cli/src/command-router.ts:1106-1131 | The writer takes a text exactly when it is well-formed and fits the write and the remaining total |
| ScanProtocol.Scan.Drive | packages/cli/src/library-api.ts:508-635 | The shared variables driven through any sequence of calls, reports, aborts and settlements: the records delivered are a beginning of the ideal sequence, a success has delivered all of it without a stop, after a stop or settlement nothing more is delivered and the first reason and the result stay |
| ScanProtocol.StepKeepsInv | packages/cli/src/library-api.ts:529-634 | Every event keeps: delivered records are a beginning of the ideal sequence, numbered without a gap while not stopped |
| ScanProtocol.SuccessDeliversAll | packages/cli/src/library-api.ts:553-628 | In every run that succeeds the delivered records are started, one for each unit, completed, with sequence 0 to N + 1 |
| ScanProtocol.DeliveredIsPrefix | packages/cli/src/library-api.ts:553-583 | In every run the delivered records are a beginning of that sequence |
| ScanProtocol.SilentAfterStop | packages/cli/src/library-api.ts:555-583 | Nothing is delivered after a stop or after settlement, and reason and result stay |
| ScanProtocol.SettlesAfterPromise | packages/cli/src/library-api.ts:603-613 | The executor's promise is raced against the stop promise: whoever wins and whatever happens meanwhile, every path to settlement contains the settling of the executor's promise, nothing is settled before it, and the result is decided by the outcome of that very promise |
| ScanProtocol.SettlesByOutcome | packages/cli/src/library-api.ts:611-628 | Once that promise has settled, the scan settles by its outcome, the first stop reason and the units reported, whether the execution or the stop has won the race |
| ScanProtocol.NeverStuck | packages/cli/src/library-api.ts:611-634 | Whatever has happened since the executor returned its promise, stops included, the scan settles once that promise settles and is awaited |
| ScanProtocol.FirstStopDecides | packages/cli/src/library-api.ts:537-613 | With a promise under way the first stop reason decides how the scan fails, however the promise settles and the race ends |
| ScanProtocol.AbortCancels | packages/cli/src/library-api.ts:543-545 | When the caller aborts while the promise is awaited, every run that settles fails as cancelled |
| ScanProtocol.AbortWhileExecuting | packages/cli/src/library-api.ts:543-602 | When the signal is aborted while the executor runs, every run that settles fails as cancelled or, if the executor itself fails, as an engine failure |
| ScanProtocol.OneReportTooMany | packages/cli/src/library-api.ts:575-580 | A report beyond the announced units delivers nothing and every run that settles fails at the resource limit |
| ScanProtocol.ObserverFails | packages/cli/src/library-api.ts:559-572 | When the observer throws or returns a promise, every run that settles fails for its progress; when it aborts the signal, as cancelled |
| ScanProtocol.UnitReported | packages/cli/src/library-api.ts:573-583 | A report that the observer takes delivers the record of that unit and the scan goes on |
| ScanProtocol.CallEnds | packages/cli/src/library-api.ts:520-592 | How the call ends for each reaction: cancelled at once, failed by the observer, or with the executor called and the first record delivered |
| ScanProtocol.ExecutorFails | packages/cli/src/library-api.ts:590-602 | An executor that throws or returns something else than a promise has failed; otherwise the race begins |
| ScanProtocol.OutcomeEnds | packages/cli/src/library-api.ts:611-628 | The result for each outcome of the promise and each reaction to the last record, with the codes written out |
| ScanProtocol.ScanCanSucceed | packages/cli/src/library-api.ts:553-628 | For every number of units there is a run that succeeds |

## Left out

- Git processes, the file system, artifact loading, argument parsing, help, completion and manual pages.
- The secret-redaction patterns, and therefore `sanitizeOutputText` as a whole; `OutputSanitization` covers controls and keys.
- Hash functions, the printing of numbers, and the path functions of the platform; of path canonicalisation only the POSIX flavour.
- Proxies, accessors, prototypes, symbol keys and non-enumerable properties, all of which the code rejects at once.
- Issue texts, issue order and the cut-off after 256 issues: acceptance is an empty list of issues.
- The field-by-field checks of configurations, profiles, policies' values, diagnostics and evidence; they enter as checked values. The compatibility tables likewise, except the two version checks of a policy pack.
- `Reflect.ownKeys` is taken to yield the array indices of an array, the numerals below 2^32 - 1, in ascending order, as the language prescribes; all other keys come in any order.
- SnapshotClone.Cloner.Clone: a copy is stored when it is complete and its array slots are filled in enumeration order; that the code creates the copy first and fills it in place is visible only for cyclic input, which is rejected.
- AstValidation.ValidateAstRelationships: child lists without duplicates are required, because the reading of the records rejects duplicates (packages/core/src/ir-validation.ts:202-231); the set of nodes being visited belongs to one walk, since it is empty between walks.
- AuthorityFilter.FilterPreservesValidity: node kinds, statement applicability, conditions and the payload of events are not modelled; filtering copies them unchanged. The parts of a parsed repository other than the IR are left out.
- FingerprintProof.PathStreamExact: texts of 2^63 bytes and more are excluded, which no JavaScript string reaches.
- FingerprintProof.SemanticStreamExact: likewise.
- FixPlanProof.KeyOrder: offsets from 2^53 on are excluded, which no JavaScript string reaches; padding to 16 digits would not order them.
- FixPlan.ValidateFixPlan: digests of sources and contents, identifiers, titles and the byte and line coordinates of ranges are not compared; their UTF-16 offsets are.
- FixPreview.ApplyingIsSubstitution: texts of 2^53 units and more are excluded, as for the order of keys.
- FixPreview.Preview: the selection of plans by candidate, confidence and suppression, the rendering of patches with its limit, and which error is reported first are left out; a digest is compared as the bytes it is taken of. Source identifiers are the well-formed ones that the pipeline admits (packages/evidence/src/safe-fix-pipeline.ts:299-307).
- OutputSanitization.SanitizeMembers: the output is the list of insertions; enumerating the object puts keys that are array indices first.
- DiagnosticBaseline.CompareDiagnosticBaseline: works on validated baselines and classified diagnostics; the size limits and the serialization of a generated baseline are left out.
- DiagnosticBaseline.GenerateDiagnosticBaseline: the bytes of an identity's JSON text, by which entries are sorted, are a parameter.
- PolicyProof.ResolveOrganizationPolicy: the pack is one that its own validation has passed, which makes its targets distinct; the registration of its targets is not checked again. Of the capabilities only registry and engine version are compared; that they are well-formed is taken as given.
- OrganizationPolicy.ValidateOverrideLayer: the checks of a single target, value, source and location are given as their outcomes.
- BoundedOutput.BoundedWriter.Write: cancellation, failures of the sink behind the writer and the waiting for it are left out.
- ScanProtocol.Scan.Drive: an observer may abort the signal but does not report progress itself; the order of microtasks is that of the events, and when both promises have settled either may have won the race.
