# Marathon component proofs

Dafny models of self-contained components of the Marathon repository, with proofs of what they
promise. `dafny verify dfyconfig.toml` verifies the whole project.

**Path trie** (`PathTrie.java`). `PathTrie.dfy` models the nodes as heap objects with child tables,
parent references and data, updated in place. A ghost value records which node stands at which
path and what its fields hold; `Valid` says that this value is a tree and that the heap agrees with
it. The methods refine operations on a map from paths to data (`TrieStore.dfy`). `Paths.dfy`
models Java's `split("/")` and the joining of a path and a name on a Unix file system.
`TrieHistory.dfy` proves what whole runs of calls leave behind, `Leafs.dfy` what `getLeafs` returns
and that it suffices to rebuild the trie. `ConcurrentAdds.dfy` models concurrent `addPath` calls as
a transition system in which each synchronized node method is one atomic step;
`ConcurrentAddsProof.dfy` proves that every interleaving amounts to the sequential order in which
the calls end, and that no call waits for another; `ConcurrentReads.dfy` that a `getNode` call among
them answers as at one moment; `ConcurrentStarts.dfy` that the calls can start on any trie.

**RecordIO** (`recordio.py`). `RecordIo.dfy` has the decoder as a class fed in arbitrary pieces,
`RecordIoProof.dfy` its chunk independence, round trip, prefix law and assertions, and `Decimal.dfy`
the decimal numbers of the headers. What `int()` makes of a header that is not ASCII, and
`deserialize`, are arbitrary function parameters; `None` stands for an exception.

**Server-Sent Events client** (`asyncsseclient.py`). `Sse.dfy` has the two generators and the
mutable event, `SseProof.dfy` a printer and the proof that the client undoes it, `SseMeaning.dfy`
what any chunk means.

**Kernels of the API console** (`api-console.js`). `Percent.dfy` and `QueryString*.dfy`: percent-
encoding and query strings; `FormText.dfy`: parameters as text. `OAuth.dfy`: the OAuth 1.0 signature base string. `Template.dfy`: URI
templates filled in two stages; `BaseUri.dfy`: their use for the base URI. `RamlTypes.dfy` with
`Walks.dfy`: RAML type inheritance. `Resources.dfy`: flattening and grouping the resource tree.

**MesosFile** (`mesos.py`) is in `MesosFile.dfy`. The **SSH connection cache** (`command.py`) is a
class in `ConnectionCache.dfy`, proved against a state machine over whole runs in
`ConnectionRuns.dfy`.

## Where code and intention differ

- A doubled slash gives the trie a node with an empty name. `getLeafs` then reports strings that do
  not lead back to the leaves; `Leafs.GetLeafsNamesTheLeavesIff` says exactly when they do, and
  `Leafs.RebuildFromLeafs` exactly when they rebuild the trie.
- An exception in `deserialize` leaves the decoder in the middle of a record; the next byte trips an
  assertion, for ever. `RecordIoProof.AssertFiresIffDeserializeRaised` is the exact law.
- A stream that is read line by line is not cut at a CR, so events whose lines end in CR merge into
  one; `SseProof.RoundTripOfCarriageReturns` is the exact law.
- `uriDecode` drops a parameter called `__proto__`, reads only a thousand parameters, and reads the
  empty string as one parameter; `QueryStringProof.RoundTrip` is the exact law.
- A substituted template value that holds an opening brace can be substituted again;
  `Template.StagesAgreeIffSafe` is the exact law.
- A lookup in a plain JavaScript object also finds inherited names such as `constructor`, so the
  model takes lookups as functions from names to texts, whatever the object answers. A base URI
  that asks for such a name gets its text early, before any parameter of that name, and the text
  may be substituted again. `BaseUri.EarlyVersionAgreesIff` says which versions can go in early for
  base URIs that do not ask, `BaseUri.AlwaysAgreesIff` what it takes for all base URIs.
- The lookup of a type name finds inherited names as well: an undeclared supertype `constructor`
  ends in a TypeError (`RamlTypes.Find`).
- `groupResources` raises a TypeError when the first path starts with `undefined/`.
- Two requests for SSH connections can share a cache key when a user name and a host hold dashes,
  and then one caller is handed the other's connection;
  `ConnectionRuns.AllGetTheirOwnIffNoCollision` is the exact law.

## Model

| member | source | states |
|---|---|---|
| PathTrie.TrieNode.AddChild | src/main/java/mesosphere/marathon/experimental/storage/PathTrie.java:102-107 | a child goes into the table only if its name is free; nothing else changes |
| PathTrie.TrieNode.DeleteChild | src/main/java/mesosphere/marathon/experimental/storage/PathTrie.java:114-121 | the child leaves the table and loses its parent; an absent name changes nothing |
| PathTrie.TrieNode.GetChild | src/main/java/mesosphere/marathon/experimental/storage/PathTrie.java:129-136 | the child under the name, or null |
| PathTrie.TrieNode.IsLeafNode | src/main/java/mesosphere/marathon/experimental/storage/PathTrie.java:161-163 | true exactly for a node without children that has a parent |
| PathTrie.AttachKeepsTree | src/main/java/mesosphere/marathon/experimental/storage/PathTrie.java:207-209 | hanging a new node below an existing one under a free name keeps the heap one tree: every node linked both ways, no node at two paths |
| PathTrie.DetachKeepsTree | src/main/java/mesosphere/marathon/experimental/storage/PathTrie.java:241-242 | taking a subtree out leaves a tree that still holds the subtree's parent |
| PathTrie.SubtreesAreDisjoint | src/main/java/mesosphere/marathon/experimental/storage/PathTrie.java:43-67 | two children of a node never share a node at or below them |
| PathTrie.PathTrie.constructor | src/main/java/mesosphere/marathon/experimental/storage/PathTrie.java:185-187 | a new trie is a tree holding only the root, without data |
| PathTrie.PathTrie.StepInto | src/main/java/mesosphere/marathon/experimental/storage/PathTrie.java:205-211 | one turn of addPath's loop keeps the tree, adds the child without data only if it is missing, and ends on the node standing at the longer path |
| PathTrie.PathTrie.AddComponents | src/main/java/mesosphere/marathon/experimental/storage/PathTrie.java:200-211 | after addPath's loop exactly the missing prefixes of the path are new, without data, and the walk stands on the path's node |
| PathTrie.PathTrie.AddPath | src/main/java/mesosphere/marathon/experimental/storage/PathTrie.java:195-215 | keeps the heap a tree and refines addPath on the map: missing prefixes appear, only the path's own data changes, null and malformed paths change nothing and only the latter is reported |
| PathTrie.PathTrie.DeletePath | src/main/java/mesosphere/marathon/experimental/storage/PathTrie.java:221-243 | keeps the heap a tree and removes exactly the path and its extensions, found through the parent reference; missing, null and malformed paths change nothing |
| PathTrie.PathTrie.Clear | src/main/java/mesosphere/marathon/experimental/storage/PathTrie.java:248-252 | keeps the heap a tree and leaves the root alone |
| PathTrie.PathTrie.Walk | src/main/java/mesosphere/marathon/experimental/storage/PathTrie.java:231-240 | the walk over the components ends on the node at the path, or on null exactly when the path does not exist |
| PathTrie.PathTrie.GetNode | src/main/java/mesosphere/marathon/experimental/storage/PathTrie.java:273-296 | the node standing at the path; the root for "/"; null for null and missing paths; an error for malformed ones |
| PathTrie.PathTrie.GetNodeData | src/main/java/mesosphere/marathon/experimental/storage/PathTrie.java:304-311 | the data of the map at the path, or null |
| PathTrie.PathTrie.ExistsNode | src/main/java/mesosphere/marathon/experimental/storage/PathTrie.java:319-322 | whether the map has the path |
| PathTrie.PathTrie.CollectLeafs | src/main/java/mesosphere/marathon/experimental/storage/PathTrie.java:324-332 | the recursion ends and adds exactly the strings of the leaves at or below its node |
| PathTrie.PathTrie.GetLeafs | src/main/java/mesosphere/marathon/experimental/storage/PathTrie.java:340-349 | a new set with exactly the strings of the leaves at or below the path; null where there is no node |
| Paths.MalformedPaths | src/main/java/mesosphere/marathon/experimental/storage/PathTrie.java:199-204 | a path is rejected exactly when its first slash, if any, is followed by slashes only |
| Paths.ComponentsIff | src/main/java/mesosphere/marathon/experimental/storage/PathTrie.java:199-204 | the components are exactly the names between the slashes after the first one, empty ones included, but for slashes at the end |
| Paths.ComponentsAreSlashFree | src/main/java/mesosphere/marathon/experimental/storage/PathTrie.java:199-206 | no name in the trie can hold a slash |
| Paths.LocationOfAbsolute | src/main/java/mesosphere/marathon/experimental/storage/PathTrie.java:277-287 | splitting undoes joining: an absolute path of non-empty names leads back to these names |
| Paths.PathsGetOfAbsolute | src/main/java/mesosphere/marathon/experimental/storage/PathTrie.java:330 | joining a name to an absolute path appends it; the empty name is swallowed |
| Paths.LocationOfPathsGet | src/main/java/mesosphere/marathon/experimental/storage/PathTrie.java:330 | joining a name to any way of writing a path, odd prefixes and doubled slashes included, leads one name further down, if no name is empty |
| Paths.LocationOfNormalised | src/main/java/mesosphere/marathon/experimental/storage/PathTrie.java:330 | a path that the file system has normalised never leads along an empty name |
| Paths.NormaliseMeaning | src/main/java/mesosphere/marathon/experimental/storage/PathTrie.java:330 | what the file system makes of a path: the same names and the same leading slash, no two slashes together, none at the end but the root's |
| TrieStore.WithPrefixesMeaning | src/main/java/mesosphere/marathon/experimental/storage/PathTrie.java:205-211 | what addPath makes exist: the old paths with their data, and the prefixes of the new one without |
| TrieHistory.CallsOfStrings | src/main/java/mesosphere/marathon/experimental/storage/PathTrie.java:195-243 | the string-level operations are the calls that the run theorems speak of |
| TrieHistory.OutcomesOfCalls | src/main/java/mesosphere/marathon/experimental/storage/PathTrie.java:195-296 | a call is rejected exactly for a path whose first slash, if any, is followed by slashes only (getNode takes "/"); rejected and null paths change nothing |
| TrieHistory.RunIsWellFormed | src/main/java/mesosphere/marathon/experimental/storage/PathTrie.java:195-252 | after every run the existing paths are closed under prefixes and their names free of slashes |
| TrieHistory.ExistsIffMadeAndKept | src/main/java/mesosphere/marathon/experimental/storage/PathTrie.java:195-252 | after every run a path exists exactly when some addPath of it or of an extension is not followed by a clear or a deletePath of it or of a prefix |
| TrieHistory.DataIsTheLastWrite | src/main/java/mesosphere/marathon/experimental/storage/PathTrie.java:212-214 | after every run the data at a path is that of the last addPath to it with data, unless a clear or a deletePath of it or of a prefix came later |
| TrieHistory.QueriesAfterRun | src/main/java/mesosphere/marathon/experimental/storage/PathTrie.java:273-322 | the same two laws for existsNode and getNodeData of a path string, with the root and the malformed paths |
| Leafs.LeafHasNoChild | src/main/java/mesosphere/marathon/experimental/storage/PathTrie.java:161-163 | an existing path is a leaf exactly when it is not the root and has no child |
| Leafs.LeafStringsOfChildren | src/main/java/mesosphere/marathon/experimental/storage/PathTrie.java:327-331 | an inner node contributes exactly what its children contribute |
| Leafs.GetLeafsNamesTheLeavesIff | src/main/java/mesosphere/marathon/experimental/storage/PathTrie.java:340-349 | the strings of getLeafs(p), however p is written, lead exactly to the leaves at or below p if and only if none of them but p itself has an empty name; each leaf is led back to on the same condition |
| Leafs.GetLeafsOfAbsolute | src/main/java/mesosphere/marathon/experimental/storage/PathTrie.java:340-349 | from an absolute path getLeafs returns the absolute paths of the leaves, their empty names dropped |
| Leafs.RebuildFromLeafs | src/main/java/mesosphere/marathon/experimental/storage/PathTrie.java:195-215 | adding the strings of getLeafs("/") in any order to an empty trie rebuilds the existing paths if and only if no name is empty |
| TrieHistory.RunRebuildsFromLeafs | src/main/java/mesosphere/marathon/experimental/storage/PathTrie.java:324-349 | the rebuilding law after any run of calls |
| TrieHistory.DoubledSlashIsNotRebuilt | src/main/java/mesosphere/marathon/experimental/storage/PathTrie.java:206-209 | the case that fails: after addPath("//a") alone getLeafs reports /a, and adding that to an empty trie does not bring the path back |
| ConcurrentAdds.AddChildPaths | src/main/java/mesosphere/marathon/experimental/storage/PathTrie.java:102-107 | one atomic addChild brings at most the one path into existence it is called for; a taken name changes no path |
| ConcurrentAdds.OnePathPerNode | src/main/java/mesosphere/marathon/experimental/storage/PathTrie.java:102-107 | in a well-formed heap no node stands at two paths |
| ConcurrentAddsProof.StepKeepsInv | src/main/java/mesosphere/marathon/experimental/storage/PathTrie.java:205-214 | every step of every call keeps: each call stands on the node at the path it has walked, and after its test or insert the child is there |
| ConcurrentAddsProof.NewPath | src/main/java/mesosphere/marathon/experimental/storage/PathTrie.java:207-210 | a step leaves every node at its path and makes at most a path its own call has claimed, without data |
| ConcurrentAddsProof.StepStaysExplained | src/main/java/mesosphere/marathon/experimental/storage/PathTrie.java:205-214 | between any two steps the existing paths are the first ones and the claimed ones, and the data are what the ended calls leave when run in sequence |
| ConcurrentAddsProof.NoCallMeetsNull | src/main/java/mesosphere/marathon/experimental/storage/PathTrie.java:210 | under every schedule no call ever stands on a null node, nor calls a method on one |
| ConcurrentAddsProof.NodesNeverMove | src/main/java/mesosphere/marathon/experimental/storage/PathTrie.java:102-107 | under every schedule a node that stands at a path stands there for ever, and the order of ended calls is only extended |
| ConcurrentAddsProof.RunsAreSequential | src/main/java/mesosphere/marathon/experimental/storage/PathTrie.java:195-215 | when all calls have ended, paths and data are those of the same calls run one after another, each once, in the order in which they ended |
| ConcurrentAddsProof.CallsAreWaitFree | src/main/java/mesosphere/marathon/experimental/storage/PathTrie.java:205-214 | a call has ended after three turns for each component of its path and one more, whatever the other calls do |
| ConcurrentStarts.EveryStoreHasAStart | src/main/java/mesosphere/marathon/experimental/storage/PathTrie.java:185-215 | for every prefix-closed set of paths with data there is a heap that holds it and on which any calls can start, so the laws of runs speak of every trie |
| ConcurrentStarts.EveryTrieCanBeShared | src/main/java/mesosphere/marathon/experimental/storage/PathTrie.java:185-215 | in particular concurrent calls can start on the value of any trie of heap objects |
| ConcurrentAddsProof.EveryAddedPathExists | src/main/java/mesosphere/marathon/experimental/storage/PathTrie.java:195-215 | when all calls have ended, exactly the initial paths and the prefixes of the added ones exist |
| ConcurrentReads.ReadsAreAtomic | src/main/java/mesosphere/marathon/experimental/storage/PathTrie.java:273-296 | a getNode call among addPath calls never meets null on its way and answers as at one moment of the call: with the node standing at its path when it returns, or null for a path missing when it began; a path that existed when it began is always found |
| ConcurrentReads.DataReadIsSequential | src/main/java/mesosphere/marathon/experimental/storage/PathTrie.java:304-311 | the data getNodeData then reads are those that the calls ended by that moment leave when run in sequence |
| ConcurrentReads.ReadsAreWaitFree | src/main/java/mesosphere/marathon/experimental/storage/PathTrie.java:286-293 | the getNode call has returned after two turns for each component, whatever the adding calls do |
| Decimal.IntOfString | tests/shakedown/shakedown/clients/recordio.py:65 | int(str(n)) is n for every length, and str(n) is ASCII without a line feed |
| Decimal.AsciiIntIff | tests/shakedown/shakedown/clients/recordio.py:128 | int() reads exactly white space, an optional sign, a numeral and white space, as the numeral's value under the sign |
| Decimal.ValueMeaning | tests/shakedown/shakedown/clients/recordio.py:128 | a further digit counts ten times what was there, an underscore nothing |
| RecordIo.Decoder.Decode | tests/shakedown/shakedown/clients/recordio.py:101-155 | the loop over the bytes ends in the fields and the reply of the byte-by-byte machine, errors included |
| RecordIoProof.DecodeConcat | tests/shakedown/shakedown/clients/recordio.py:121-155 | decoding a + b is decoding a and then, unless that raises, b |
| RecordIoProof.ChunksAreIndependent | tests/shakedown/shakedown/clients/recordio.py:101-155 | the calls on the chunks raise nothing exactly when one call on the whole raises nothing, and then records, state, buffer and length agree |
| RecordIoProof.FirstErrorIsTheSame | tests/shakedown/shakedown/clients/recordio.py:127-134 | when the call on the whole raises, the first chunk call that raises does so with the same error and fields |
| RecordIoProof.AssertsNeverFire | tests/shakedown/shakedown/clients/recordio.py:144-146 | with a total deserialize, in every run each state is healthy or failed and neither assert fires |
| RecordIoProof.AssertFiresIffDeserializeRaised | tests/shakedown/shakedown/clients/recordio.py:141-151 | with any deserialize, a call trips an assert exactly when it brings a byte after an earlier error of deserialize |
| RecordIoProof.FailedForEver | tests/shakedown/shakedown/clients/recordio.py:116-117 | a failed decoder raises on every later call and changes nothing |
| RecordIoProof.FrameIsDecoded | tests/shakedown/shakedown/clients/recordio.py:49-65 | one encoded record, empty or not, gives its message and ends between frames |
| RecordIoProof.AnyFrameIsDecoded | tests/shakedown/shakedown/clients/recordio.py:121-151 | whatever way a header has of writing its number the frame gives its message, and a number that is not positive stands for an empty record |
| RecordIoProof.BadHeaderFails | tests/shakedown/shakedown/clients/recordio.py:127-134 | a header that is no number fails the decoder and what follows is not looked at |
| RecordIoProof.PrefixOfFrames | tests/shakedown/shakedown/clients/recordio.py:101-155 | after any prefix of a stream of frames exactly the messages whose frames are complete have been emitted, and nothing has failed |
| RecordIoProof.RoundTrip | tests/shakedown/shakedown/clients/recordio.py:49-155 | decoding the encodings of any list of messages returns the list and ends in HEADER with an empty buffer |
| Sse.Read | tests/system/asyncsseclient.py:29-43 | the generator yields the chunks that stitching and cutting at delimiters define |
| Sse.Event.TakeLine | tests/system/asyncsseclient.py:49-85 | one line changes the event as the field rules say; comments, blank and unknown lines change nothing |
| Sse.Events | tests/system/asyncsseclient.py:45-100 | the generator yields new events with the values that the chunks dispatch, in order |
| SseProof.ChunksLoseNothing | tests/system/asyncsseclient.py:36-43 | the yielded chunks put together are the input, for every stream |
| SseProof.ChunksAreCutAtDelimiters | tests/system/asyncsseclient.py:39-43 | no chunk is empty and all but the last end in a delimiter |
| SseProof.ChunksOfLines | tests/system/asyncsseclient.py:36-43 | fed line by line, no chunk holds a blank line anywhere but at its end |
| SseProof.EventIsOneChunk | tests/system/asyncsseclient.py:36-43 | the lines of one printed event, ended by LF, CR LF or CR, arrive as one chunk, whatever follows |
| SseProof.SplitOneLine | tests/system/asyncsseclient.py:49 | LF, CR LF and CR end a line, and a CR is taken together with an LF after it |
| SseProof.EventIsReadBack | tests/system/asyncsseclient.py:45-100 | a printed event is parsed to itself, however its lines end, its empty name read as message |
| SseMeaning.LineMeaning | tests/system/asyncsseclient.py:58-78 | a line is its field, the first colon, one space that does not count, and its value |
| SseMeaning.EventMeaning | tests/system/asyncsseclient.py:45-100 | any chunk dispatches an event exactly when it has a data line: with the last id and retry, the last name or message, and the data lines joined by LF; comments and unknown fields do not count |
| SseProof.DispatchedEventsAreClean | tests/system/asyncsseclient.py:48-100 | no input makes the client dispatch a line break inside id, name or retry, or a CR inside data |
| SseProof.RoundTrip | tests/system/asyncsseclient.py:29-100 | printed events with lines ended by LF or CR LF, fed line by line, come back in order if and only if no id, name or retry holds a CR or LF and no data a CR |
| SseProof.RoundTripInPieces | tests/system/asyncsseclient.py:29-100 | fed one event at a time they come back on the same condition, also when lines end in CR |
| SseProof.RoundTripOfCarriageReturns | tests/system/asyncsseclient.py:36-43 | fed line by line with lines ended by CR, they come back if and only if they are clean and there is at most one, since several arrive as one chunk |
| Percent.EncodeIsPercentEncode | docs/api-console/scripts/api-console.js:4911-4915 | the three replacements together are percent-encoding of everything but the unreserved characters of section 2.3 of RFC 3986 |
| Percent.DecodeOfEncode | docs/api-console/scripts/api-console.js:4911-4925 | decoding undoes encoding on every octet sequence |
| Percent.DecodeFailsIff | docs/api-console/scripts/api-console.js:4923-4925 | decoding fails exactly on a percent sign that two hexadecimal digits do not follow |
| Percent.UnreservedCodes | docs/api-console/scripts/api-console.js:4911-4915 | the characters left alone, by their codes |
| Percent.TripletCodes | docs/api-console/scripts/api-console.js:4911-4915 | an escape has upper-case digits, the high one first |
| Percent.EncodeAlphabet | docs/api-console/scripts/api-console.js:3257-3259 | encoded text holds only unreserved characters and percent signs, so no separator |
| QueryString.UriEncode | docs/api-console/scripts/api-console.js:4935-4955 | the nested loops produce the joined tokens of the parameters an object stands for |
| QueryStringProof.EncodedText | docs/api-console/scripts/api-console.js:4935-4955 | the result is "key=value" for each parameter, percent-encoded, joined by "&" |
| QueryStringProof.PairsMeaning | docs/api-console/scripts/api-console.js:4941-4952 | a property stands for its strings in order, null for none; properties follow one another |
| QueryString.UriDecode | docs/api-console/scripts/api-console.js:4965-4997 | the loop produces the fold of the first thousand tokens, or an error if one of them does not decode |
| QueryStringProof.PlusIsSpace | docs/api-console/scripts/api-console.js:4975-4985 | a plus sign is read as a space, the key stands before the first "=" and the value after it |
| QueryStringProof.TokenWithoutEquals | docs/api-console/scripts/api-console.js:4976-4985 | a token without "=" is a key with the empty value |
| QueryStringProof.TextIsReadBack | docs/api-console/scripts/api-console.js:4965-4985 | cut at each "&", the encoded text is read back parameter by parameter |
| QueryStringProof.CollectAllHolds | docs/api-console/scripts/api-console.js:4987-4993 | collecting parameters keeps every key's values in order, as a string or an array, except for the key __proto__ |
| QueryStringProof.TooManyAreCut | docs/api-console/scripts/api-console.js:4971-4972 | past a thousand parameters some key loses a value |
| QueryStringProof.RoundTrip | docs/api-console/scripts/api-console.js:4935-4997 | uriDecode(uriEncode(obj)) is obj without nulls, empty arrays and arrays of one if and only if obj stands for 1 to 1000 parameters and none is called __proto__ |
| OAuth.EncodeParameters | docs/api-console/scripts/api-console.js:3314-3339 | the loops, the sort and the join produce the normalised string of query, form (when it is one) and OAuth parameters |
| OAuth.SortSorts | docs/api-console/scripts/api-console.js:3334-3336 | the sort gives a permutation in the order of the comparison |
| OAuth.SortIsUnique | docs/api-console/scripts/api-console.js:3334-3336 | under a strict total order there is only one sorted permutation, so the sorting algorithm does not matter |
| OAuth.NormalisedText | docs/api-console/scripts/api-console.js:3318-3339 | the normalised string is "key=value" for every parameter, encoded, joined by "&", ordered by key and under equal keys by value (section 3.4.1.3.2 of RFC 5849) |
| OAuth.NormalisedIsReadBack | docs/api-console/scripts/api-console.js:3314-3339 | cut at each "&" and read as a query string, it gives the parameters back in that order |
| OAuth.ParametersOfRequest | docs/api-console/scripts/api-console.js:3315-3332 | the parameters are those of query and OAuth, and those of the body only if it is a form |
| OAuth.SameStringIffSameParameters | docs/api-console/scripts/api-console.js:3314-3339 | two parameter lists give the same string if and only if they are equal as multisets (section 3.4.1.3.2 of RFC 5849) |
| OAuth.FieldsOfHmacText | docs/api-console/scripts/api-console.js:3290-3298 | method, base URI and parameter string can be read back out of the signature base string, whatever the method holds |
| OAuth.HmacTextMeaning | docs/api-console/scripts/api-console.js:3290-3298 | method, encoded base URI and encoded parameter string, in this order, joined by "&" |
| OAuth.SameTextIffSameRequest | docs/api-console/scripts/api-console.js:3290-3298 | the signature base strings of two requests agree if and only if method, base URI and multiset of parameters do (section 3.4.1.1 of RFC 5849) |
| Template.TwoStagesAreOne | docs/api-console/scripts/api-console.js:3511-3557 | substituting early and rendering later equals one pass in which the early values win, in every context, if no early value opens a hole |
| Template.StagesAgreeIffSafe | docs/api-console/scripts/api-console.js:3543-3555 | for each template this agreement in every context holds if and only if the template is safe for the values |
| Template.StagesAlwaysAgreeIffNoOpenBrace | docs/api-console/scripts/api-console.js:3543-3550 | every template is safe if and only if no value a hole can ask for holds an opening brace |
| BaseUri.StripSlashesMeaning | docs/api-console/scripts/api-console.js:3032 | exactly the slashes at the end of the base URI are cut off |
| BaseUri.BaseUriMeaning | docs/api-console/scripts/api-console.js:3011-3035 | slashes at the end do not count, and a base URI without holes is the result but for them |
| BaseUri.EarlyVersionAgreesIff | docs/api-console/scripts/api-console.js:3011-3035 | for base URIs that ask for no inherited name, with all parameters, putting the version in early never makes a difference if and only if the version holds no opening brace or is the very hole {version} |
| BaseUri.AlwaysAgreesIff | docs/api-console/scripts/api-console.js:3011-3035 | for all base URIs and parameters it makes no difference if and only if, besides, the early object answers no other name that a hole can have, or only with what comes to the name's hole again |
| BaseUri.VersionWithBraceDisagrees | docs/api-console/scripts/api-console.js:3011-3035 | one case that fails: any other version with an opening brace has parameters for which the two ways differ on a base URI that asks for nothing but the version |
| BaseUri.InheritedNameDisagrees | docs/api-console/scripts/api-console.js:3543-3546 | the other case: any name answered otherwise has parameters for which the two ways differ on its hole |
| BaseUri.ConstructorDisagrees | docs/api-console/scripts/api-console.js:3543-3546 | such a name: a hole called constructor that the caller gives no value becomes the text of the inherited function, early without its body |
| RamlTypes.CleanedForms | docs/api-console/scripts/api-console.js:4220-4222 | the names of a type, of its array, of the type in parentheses and of the array of that are the type's |
| RamlTypes.RemoveFirstMeaning | docs/api-console/scripts/api-console.js:4221 | the first occurrence of a piece goes, if there is one |
| RamlTypes.NativeNames | docs/api-console/scripts/api-console.js:4224-4240 | a plain name is native if it is one of the eleven, and so is the array of it in parentheses |
| RamlTypes.FindMeaning | docs/api-console/scripts/api-console.js:4251-4261 | the first object with the name gives the declaration, unless the first of all inherits the name |
| RamlTypes.AddSuperTypes | docs/api-console/scripts/api-console.js:4313-4315 | the loop over the supertypes folds getSuperTypesProperties, stopping at the first that gives no result |
| RamlTypes.MergeType | docs/api-console/scripts/api-console.js:4303-4328 | a list of supertypes that starts native is not followed; any other gives a result exactly when every chain ends, and then each property is the type's own or else the first in the lineage, in both directions |
| RamlTypes.SuperTypesAlongTheChain | docs/api-console/scripts/api-console.js:4278-4289 | along a chain of first supertypes a property is the one already there or else the first one declared; endless and broken chains correspond |
| RamlTypes.OnlyTheFirstSupertypeIsFollowed | docs/api-console/scripts/api-console.js:4278-4289 | of the supertypes of a supertype only the first one is followed |
| RamlTypes.MergedPropertiesAreInherited | docs/api-console/scripts/api-console.js:4312-4316 | there is a result exactly when every chain ends, and each property in it is the type's own or else the first in the lineage, in both directions |
| RamlTypes.RankedEnds | docs/api-console/scripts/api-console.js:4278-4289 | on acyclic declarations no recursion is endless |
| RamlTypes.NeverEndsIffWalkGoesOn | docs/api-console/scripts/api-console.js:4278-4289 | the recursion is endless exactly when the walk along first supertypes never stops |
| Resources.ExtractResources | docs/api-console/scripts/api-console.js:3887-3910 | the loop and the recursion produce the flattened list |
| Resources.ExtractListsTheTree | docs/api-console/scripts/api-console.js:3887-3910 | every resource is listed exactly once, in preorder, with its full path from the root |
| Resources.BelongsIff | docs/api-console/scripts/api-console.js:3916-3917 | a path belongs to a head if it is the head's path or that path, a slash and more; before the first head the path read is undefined |
| Resources.GroupResources | docs/api-console/scripts/api-console.js:3912-3926 | the groups are non-empty, make up the list, hold members of their head's prefix only, and no head belongs to the group before; a TypeError happens exactly for an overview without path segments or a first path starting with undefined/ |
| Resources.GroupsAreUnique | docs/api-console/scripts/api-console.js:3912-3926 | no other division of the list has these properties |
| Resources.SubtreeInOneGroup | docs/api-console/scripts/api-console.js:3912-3926 | the whole subtree of a top-level resource, at its place in the list, falls in one group |
| MesosFile.Server.FilesRead | tests/shakedown/shakedown/clients/mesos.py:137-172 | the documented server contract: some but perhaps not all of the bytes asked for, none only at the end, the size for offset -1 |
| MesosFile.MesosFile.Seek | tests/shakedown/shakedown/clients/mesos.py:808-830 | the cursor after each kind of seek; an unknown kind raises and moves nothing |
| MesosFile.MesosFile.Tell | tests/shakedown/shakedown/clients/mesos.py:832-839 | the cursor, which nothing moves |
| MesosFile.MesosFile.Read | tests/shakedown/shakedown/clients/mesos.py:841-858 | against every such server read ends from every cursor and moves the cursor by what it returns; from cursor 0 on it returns exactly the bytes up to the length or the end, from cursor -1 nothing |
| MesosFile.ReadFromMeaning | tests/shakedown/shakedown/clients/mesos.py:841-858 | the bytes read are all the rest, or as many as asked for and as there are; none from the end on |
| MesosFile.ReadsAreContiguous | tests/shakedown/shakedown/clients/mesos.py:841-921 | any number of consecutive reads, with and without lengths, join to one contiguous piece of the file |
| ConnectionCache.Cache.GetConnection | tests/shakedown/shakedown/dcos/command.py:34-60 | keeps every opened connection either cached or closed; a hit is active and authenticated and changes nothing; a bad one is closed and replaced; cache and caller get what the runs say, which is a connection for the host and user asked for whenever no two requests so far share a key; the last return is never reached |
| ConnectionCache.Cache.Purge | tests/shakedown/shakedown/dcos/command.py:65-77 | removes and closes one key's connection or all of them, as the runs say, and keeps every opened connection either cached or closed |
| ConnectionCache.Cache.Disturb | tests/shakedown/shakedown/dcos/command.py:38-42 | a connection going bad on its own breaks nothing and shows in the cache only if it is cached |
| ConnectionRuns.AllGetTheirOwnIffNoCollision | tests/shakedown/shakedown/dcos/command.py:34-77 | for every set of requests: all runs of calls for them, with purges and failing connections, give every caller a connection for its own host and user if and only if no two of the requests share a key |
| ConnectionRuns.SecondGetsTheFirst | tests/shakedown/shakedown/dcos/command.py:34-42 | any two different requests with one key go wrong, and no other two: asked for one after the other, the second caller gets the connection of the first |
| ConnectionRuns.KeyText | tests/shakedown/shakedown/dcos/command.py:35 | the key is the host, a dash and the user name, as a caller of purge has to write it |
| ConnectionRuns.KeysCollideIff | tests/shakedown/shakedown/dcos/command.py:35 | two requests share a key if and only if they are the same or a piece ending in a dash moves from the user name of one to the host of the other |
| ConnectionRuns.DashFreeRequestsDoNotCollide | tests/shakedown/shakedown/dcos/command.py:35 | no two requests collide if no user name holds a dash, and none if no host does |
| ConnectionCache.TwoCalls | tests/shakedown/shakedown/dcos/command.py:34-60 | on the real cache the second of two successful calls gets its own connection exactly when the requests are the same or their keys differ |

## Left out

- ConnectionCache.Cache.GetConnection: sequential calls only; the source takes its lock only in `purge`, so concurrent calls have no guarantee to state.
- OAuth.SameStringIffSameParameters: takes `localeCompare` as an arbitrary strict total order.
- MesosFile.MesosFile.Read: the file does not change between requests, one JSON character counts as one byte, and nothing is said of the data read from cursors below -1, for which the server's answer is not documented.
- QueryString.UriDecode: works on octets, so it does not model that `decodeURIComponent` rejects escapes that are not UTF-8.
- Path trie: the bytes of a node's data are a value, so a caller that changes its array after `addPath` is not modelled; `getChildren`, `toString` and logging would only add easy members; deletes and iteration that race with other threads have no guarantee in the source.
- Path trie: paths that a file system refuses (NUL or unmappable characters in `Paths.get`) and file systems other than Unix.
- Path trie: the loops shared by `deletePath` and `getNode`, and the body and loop of `addPath`, are methods of their own so that each proof stays small; so are the two halves of the cache's wrapper.
- RecordIO: the type tests on arguments and the texts of the exceptions. `int()` is that of Python 3.6 and later (single underscores between digits), without the limit that newer versions put on the number of digits.
- Server-Sent Events: UTF-8 and its decoding errors; the text is modelled after decoding.
- Query strings: UTF-16 and UTF-8; strings are octet sequences, and lone surrogates are not expressible. Separators other than the defaults.
- OAuth: the upper-casing of the method, the DOM-based normalisation of the URL (the base URI is an input), nonces, timestamps and the HMAC itself.
- Templates: the serialisation of object values (it is part of the lookup) and the token list.
- RAML types: the discriminator flag, a property called `__proto__`, and the order in which the merged properties are stored.
- Resources: the other fields of an overview (methods, security schemes, documentation parameters).
- HTTP, SSH, ZooKeeper, Mesos and Marathon clients, the Scala scheduler, the user interface and the other metric and tool sources are not part of this model.
