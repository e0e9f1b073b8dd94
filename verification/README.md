# Verified models of the load balancer's algorithmic core

This project models, in Dafny, those parts of a distributed `llama.cpp` load balancer
that carry a real algorithm: the patched RPC dispatcher, the bridge's batch builders and
layer plan, and the scanners, parsers and rewriters among its scripts. Most modules
stand for one source file. Code that changes state step by step is a `class` or a `method`
with loops, proved against a specification function; what the source promises is then
proved about that function for all inputs.

| module | models | main results |
|---|---|---|
| `RpcDispatcher` | the C++ worker of the RPC client after the session-loss patch, as a step machine of callers, worker and an adversarial network, and as code | exact replies up to one message and zeros from there on, in every run; each message completed once and in order; a sticky flag that is set in time; no caller waits for ever |
| `Gguf`, `GgufFiles` | the recursive reader of GGUF metadata with its cursor | round trip for every tree of values followed by any bytes; conversely, what is read is always the layout of some file; a read depends only on the bytes it goes over; every cut inside the key/value section is rejected |
| `JsonCut` | the one-pass scan for the end of an object in a log | it cuts exactly the brace-balanced object, both directions; every JSON object is cut out whole |
| `Tokenizer` | the greedy longest match with its index by first symbol | the fast form equals the naive one; the greedy count is minimal exactly when overlapping tokens are safe |
| `ByteDecoder`, `Utf8` | the GPT-2 byte alphabet, the token decoder, UTF-8 with replacement | bijection; when decoding keeps a text; when it undoes the alphabet, both as if-and-only-if |
| `DocLinks`, `LinkPattern`, `PosixPath` | the link normaliser with its link pattern, `join`, `normpath` and `relpath` | rewritten links resolve to the counterpart; when a rewritten link leads there and when it can die, link by link and as if-and-only-if; when a second pass, reading what the pattern reads, changes nothing |
| `LayerPlan`, `AssignmentLines`, `IntKeys` | the layer plan read from the log | which lines are read, as if-and-only-if; print/parse round trips for lines and whole logs; last line wins; the snapshot is the one canonical list and the shortest |
| `BatchBuilder` | the two batch builders and the batched decode | every cell of the batch, from both sides; one row of logits per non-empty sequence |
| `StreamFraming` | the chunked stream reader and the agent loop | the turn depends on the text alone, not on its chunks; each turn answers the history before it, and every call is answered |
| `BraceChecker`, `BracketNesting` | the line-by-line brace checker | accepts exactly the texts whose brackets balance kind by kind outside strings and comments; no false alarms, and what it misses are exactly crossing pairs; blanking changes nothing |

`Basics`, `Strings`, `Literals` and `Lines` hold what several modules share.

## Where the code and its own comments disagree

The model follows the code; each claim that is false of it has a lemma that shows the
failing input and one that says exactly when the claim holds.

* `scripts/vocab_byte_decoder.js:73-75` calls the attempt to decode safe for ordinary
  text. The two letters U+00C3 U+00A9 come out as one (`OrdinaryTextIsChanged`), and so
  does every text made of the symbols of a non-ASCII text (`SymbolsOfTextAreChanged`);
  the claim holds exactly as `DecodingKeepsTextExactlyWhen` and `SafeToTry` say.
* `scripts/vocab_byte_decoder.js:8` and `:36` want the shifted space back. The guard on
  line 81 only admits code points below U+0100, so the 68 shifted symbols stay in every
  token (`ShiftedSymbolsStay`, `SpaceStaysShifted`, `DecoderUndoesAlphabetExactlyWhen`).
* `scripts/vocab_bpe_probe.js:12` calls the greedy count a bound on the reachable
  density. It is one for vocabularies without an unsafe overlap, and only for those
  (`GreedyIsOptimalExactlyWhen`, `GreedyIsNotOptimalInGeneral`).
* `scripts/normalize-doc-links.py:8-10` calls the pass idempotent. A link to a name that
  ends in a doubled `.ru` is changed by a second pass if the shorter forms exist
  (`DoubledNeighbourIsChangedTwice`), and its first replacement is not yet in English
  (`LanguageOfWanted`). So is a link up to a directory whose name holds a `#` or a `)`, if
  no blank keeps the pattern from reading the new text and the part of the name before
  the first such character leads to a place with a counterpart, such as another markdown
  file (`BrokenDirectoryIsChangedTwice`). For what the first pass writes for a link there
  is no third case (`SecondPassExactly`, and for whole texts
  `TextPassIsIdempotentExactly`).
* The same lines say that no dead link is created. A link whose target lies below the
  document and begins, seen from there, like a scheme is rewritten to what is no file
  link: `./data:x.ru.md` becomes `data:x.md` (`SchemeNameKills`). And a link up to a
  directory named like a markdown file can die if that name holds a `#`, a blank or a
  closing parenthesis (`SpoiledDirectoryKills`). Again there is no third case
  (`RewrittenLeadsExactlyWhen`, `NeverDiesExactlyWhen`).
* `scripts/check_braces.js:1` calls the counter parser-aware. It never compares kinds of
  brackets with each other (`CrossedBracketsAreAccepted`); what it misses are exactly the
  texts in which pairs of different kinds cross (`AcceptsNestedAndCrossed`).

## Model

| member | source | states |
|---|---|---|
| `RpcDispatcher.RepliesThenZeros` | scripts/make-rpc-session-patch-r221.js:85-101 | In every reachable state there is one position up to which delivered buffers hold the reply to that very message and from which they hold zeros; nothing was sent behind it |
| `RpcDispatcher.CompletedOnceInOrder` | scripts/make-rpc-session-patch-r221.js:72-101 | What was queued is at all times what was completed, then what the worker holds, then the queue: no message is lost, doubled or overtaken |
| `RpcDispatcher.PassedCheckSawExactReplies` | scripts/make-rpc-session-patch-r221.js:117-126 | If a graph compute passed its check, every message completed by then got the node's exact reply: no compute runs on zeroed data |
| `RpcDispatcher.FailureIsSticky` | scripts/make-rpc-session-patch-r221.js:105-113 | Over any run from a failed state the flag stays set, one line is logged in all, nothing more is sent and every later check fails |
| `RpcDispatcher.UnansweredMessageFailsLaterChecks` | scripts/make-rpc-session-patch-r221.js:85-126 | Once an unanswered command is completed, every later graph compute fails its check, in every continuation |
| `RpcDispatcher.WorkerBlocksOnlyWhenDone` | scripts/make-rpc-session-patch-r221.js:72-101 | The worker has an enabled step exactly while a message is queued or in its hands, whatever the flag and the network |
| `RpcDispatcher.QueueIsReleased` | scripts/make-rpc-session-patch-r221.js:72-73 | Five worker steps per message release the first n messages, however callers interleave and even after a failure |
| `RpcDispatcher.InvRun` | scripts/make-rpc-session-patch-r221.js:85-126 | The joint invariant of queue, worker, flag, history of sends and checks is kept by every run |
| `RpcDispatcher.ClearFlagMeansAnswered` | scripts/make-rpc-session-patch-r221.js:86-96 | While the flag is clear everything completed was answered |
| `RpcDispatcher.ReachableRun` | scripts/make-rpc-session-patch-r221.js:85-126 | Runs compose, so what holds of reachable states holds of the object after any of its methods |
| `RpcDispatcher.IterationRuns` | scripts/make-rpc-session-patch-r221.js:85-101 | One iteration of the loop is a run of the step machine that ends with the message delivered with its due buffer |
| `RpcDispatcher.Memset` | scripts/make-rpc-session-patch-r221.js:97-99 | The whole buffer is zero afterwards |
| `RpcDispatcher.Dispatcher.Enqueue` | scripts/make-rpc-session-patch-r221.js:59-70 | Queueing puts the message behind all others, whatever the state of the session, and is the enqueue step of the machine |
| `RpcDispatcher.Dispatcher.GraphCompute` | scripts/make-rpc-session-patch-r221.js:121-124 | The guard of graph compute returns the negated flag and is the check step |
| `RpcDispatcher.Dispatcher.Fail` | scripts/make-rpc-session-patch-r221.js:109-113 | The flag is set, and a line is logged only by the call that sets it |
| `RpcDispatcher.Dispatcher.SendCommand` | scripts/make-rpc-session-patch-r221.js:87-92 | A send writes the caller's buffer as the network decides and reports whether a full reply came |
| `RpcDispatcher.Dispatcher.Process` | scripts/make-rpc-session-patch-r221.js:85-100 | The message is sent only if the session is alive; its buffer ends as the reply, as zeros, or untouched if it has no command |
| `RpcDispatcher.Dispatcher.WorkOnce` | scripts/make-rpc-session-patch-r221.js:85-101 | One loop iteration takes the oldest message, completes it and moves the object along a run of the step machine |
| `RpcDispatcher.Dispatcher.Work` | scripts/make-rpc-session-patch-r221.js:72-101 | Draining a queue completes every message in it, whatever the network does |
| `Gguf.FileRoundTrip` | scripts/vocab_stats_lib.js:53-95 | Every well-formed file, its values laid out by the widths of the format, followed by any bytes is read back: version, tensor count and, per key, the last value written for it |
| `GgufFiles.ReadsExactlyTheFiles` | scripts/vocab_stats_lib.js:53-95 | The converse as well: a buffer of less than 2^53 bytes is read if and only if its first four bytes are GGUF up to their high bits and the rest starts with the layout of some file |
| `GgufFiles.TreeThere` | scripts/vocab_stats_lib.js:62-86 | Every value that is read is the meaning of a tree laid out at that very place |
| `GgufFiles.EntriesThere` | scripts/vocab_stats_lib.js:88-93 | Entries that are read are laid out one behind the other, and a count that was read is exact |
| `GgufFiles.NotGgufExactlyWhen` | scripts/vocab_stats_lib.js:53-57 | A buffer is turned away as no GGUF if and only if one of its first four bytes is missing or differs from GGUF in its low seven bits |
| `Gguf.ReadsOneByte` | scripts/vocab_stats_lib.js:34-44 | Types 0, 1 and 7 take one byte: unsigned, signed, and true for any byte but 0 |
| `Gguf.ReadsTwoBytes` | scripts/vocab_stats_lib.js:35-39 | Types 2 and 3 take two bytes, the lower first: unsigned and signed |
| `Gguf.ReadsFourBytes` | scripts/vocab_stats_lib.js:36-42 | Types 4, 5 and 6 take four bytes, the lowest first: unsigned, signed, and the bits of a float |
| `Gguf.ReadsEightBytes` | scripts/vocab_stats_lib.js:37-43 | Types 10, 11 and 12 take eight bytes, the lowest first: unsigned, signed, and the bits of a double |
| `Gguf.ReadsStringBytes` | scripts/vocab_stats_lib.js:45-51 | Type 8 takes eight bytes of length, rounded to a double, and that many bytes of UTF-8, or fails at the place where they end |
| `Gguf.ReadsArrayBytes` | scripts/vocab_stats_lib.js:76-82 | Type 9 takes four bytes of item type, eight of count, and the items behind them; 2^32 items or more are an error |
| `Gguf.RejectedValues` | scripts/vocab_stats_lib.js:29-33 | A value that is cut off gives need, place and rest for each of the thirteen types, and any other type is unknown at its place |
| `Gguf.RoundsToNearestEven` | scripts/vocab_stats_lib.js:46 | Above 2^53 a length becomes the nearest of the numbers with 53 significant bits, and of two equally near ones the even one |
| `Gguf.CutIsRejected` | scripts/vocab_stats_lib.js:29-33 | A well-formed file cut anywhere before the end of its key/value section gives an error, never a partial result |
| `Gguf.ReadsTree` | scripts/vocab_stats_lib.js:62-86 | Every tree of values, with arrays nested to any depth and wherever it lies, is read as its meaning, and the reader stops right behind it |
| `Gguf.ValueIsLocal` | scripts/vocab_stats_lib.js:62-86 | A successful read of a value depends on no byte outside the ones it went over |
| `Gguf.FileIsLocal` | scripts/vocab_stats_lib.js:53-95 | Two buffers that agree up to where reading stopped are read alike |
| `Gguf.StoreKeepsLast` | scripts/vocab_stats_lib.js:88-93 | The map holds for each key the value of its last entry, and no other key |
| `Gguf.ToNumberExact` | scripts/vocab_stats_lib.js:46 | Converting a 64-bit length to a double is exact up to 2^53 and stays at least 2^53 above it |
| `Gguf.ReadValue` | scripts/vocab_stats_lib.js:62-86 | Every successful read of a value takes at least one byte and stays inside the buffer |
| `Gguf.ReadItems` | scripts/vocab_stats_lib.js:76-82 | Reading the items of an array never moves back nor past the end |
| `Gguf.ReadString` | scripts/vocab_stats_lib.js:45-51 | A string that was read lies inside the buffer |
| `Gguf.ReadUnsigned` | scripts/vocab_stats_lib.js:34-37 | A fixed-width read succeeds only with all its bytes there and moves by its width |
| `Gguf.Reader.Need` | scripts/vocab_stats_lib.js:29-33 | An error is raised if and only if the read would end behind the buffer, and it names need, offset and rest |
| `Gguf.Reader.Unsigned` | scripts/vocab_stats_lib.js:34-37 | The cursor form of the fixed-width readers refines the specification |
| `Gguf.Reader.Str` | scripts/vocab_stats_lib.js:45-51 | The cursor form of the string reader refines the specification |
| `Gguf.Reader.NextValue` | scripts/vocab_stats_lib.js:62-86 | The recursive reader terminates on every buffer, with the remaining bytes as its measure, and refines the specification |
| `Gguf.Reader.Entries` | scripts/vocab_stats_lib.js:88-93 | The key/value loop builds the map of the specification |
| `Gguf.Reader.ReadGguf` | scripts/vocab_stats_lib.js:53-95 | Reading a whole buffer gives the result of the specification, errors included |
| `JsonCut.CutsExactlyTheObject` | scripts/extract-cline-request.js:36-52 | From an opening brace the scan ends at a position if and only if the text up to it is one object balanced outside strings; it fails only if no prefix is |
| `JsonCut.JsonObjectIsCutWhole` | scripts/extract-cline-request.js:36-52 | Every JSON object of RFC 8259, with any layout and followed by anything, is cut out whole |
| `JsonCut.BalancedJson` | scripts/extract-cline-request.js:41-47 | Every JSON text is balanced outside its strings, and an object starts and ends with its own braces |
| `JsonCut.ScanItem` | scripts/extract-cline-request.js:39-48 | Inside an object the scan walks over any balanced piece without changing its depth |
| `JsonCut.ParseLevels` | scripts/extract-cline-request.js:39-48 | A scan that ends has gone over one level of balanced pieces and one closing brace for each open brace |
| `JsonCut.EndIsBehindBrace` | scripts/extract-cline-request.js:47 | Wherever a scan starts, it ends right behind a closing brace |
| `JsonCut.ObjectPrefixes` | scripts/extract-cline-request.js:37-52 | At most one prefix is an object, and the scan finds it if there is one |
| `JsonCut.FindEnd` | scripts/extract-cline-request.js:38-48 | The loop over depth, string and escape flags computes the automaton |
| `JsonCut.Extract` | scripts/extract-cline-request.js:28-56 | Behind the last key the fragment is the object that starts at the first brace, or the error of the case; without a brace it is never an object |
| `Tokenizer.GreedyTokenize` | scripts/vocab_bpe_probe.js:56-79 | With any index for a vocabulary the count is that of the naive longest match over the whole vocabulary |
| `Tokenizer.Match` | scripts/vocab_bpe_probe.js:61-74 | At a position the bucket search gives the length of the longest token that starts there, 1 if none does |
| `Tokenizer.Matches` | scripts/vocab_bpe_probe.js:66-70 | The inner comparison decides whether the token starts the rest of the text |
| `Tokenizer.FirstInBucketIsLongest` | scripts/vocab_bpe_probe.js:99-102 | The first match in a bucket sorted by length is the longest of all tokens |
| `Tokenizer.NothingInBucket` | scripts/vocab_bpe_probe.js:74 | If the bucket has no match, or there is no bucket, no token of the vocabulary starts the rest |
| `Tokenizer.Longest` | scripts/vocab_bpe_probe.js:49-51 | The naive match is at least as long as every token that fits and is itself a token or one symbol |
| `Tokenizer.BuildIndex` | scripts/vocab_bpe_probe.js:81-104 | A text is in a bucket if and only if it is the decoded text of a non-empty string of the vocabulary and neither empty nor damaged, and the bucket is that of its first symbol; longer ones come first; the non-empty strings with such a text are counted as decoded, the others as skipped |
| `Tokenizer.FillBuckets` | scripts/vocab_bpe_probe.js:82-98 | The first loop: which entries are skipped, which are counted, and the buckets in vocabulary order |
| `Tokenizer.UsableExactly` | scripts/vocab_bpe_probe.js:86-92 | The vocabulary of the index is the set of decoded texts of its non-empty strings, without empty and damaged ones |
| `Tokenizer.IndexExactly` | scripts/vocab_bpe_probe.js:81-104 | An index holds a text under a symbol if and only if the text is such a decoded one and starts with that symbol |
| `Tokenizer.SymbolsAreIndexed` | scripts/vocab_bpe_probe.js:87-96 | The byte-level symbols of a text whose bytes the alphabet keeps are indexed as that text, not as the symbols |
| `Tokenizer.SortBuckets` | scripts/vocab_bpe_probe.js:99-102 | Every bucket is sorted and no key is lost |
| `Tokenizer.BuiltIndexIsIndex` | scripts/vocab_bpe_probe.js:91-102 | Sorted buckets by first symbol are what the tokenizer relies on |
| `Tokenizer.SortIsDescending` | scripts/vocab_bpe_probe.js:101 | After sorting no token is longer than one before it |
| `Tokenizer.GreedyCuts` | scripts/vocab_bpe_probe.js:60-77 | The greedy pieces rebuild the text, and each is a token or a single symbol |
| `Tokenizer.CountBounds` | scripts/vocab_bpe_probe.js:56-79 | The count lies between length divided by the longest token, rounded up, and the length |
| `Tokenizer.GreedyIsOptimalExactlyWhen` | scripts/vocab_bpe_probe.js:9-13 | No cut of any text has fewer pieces than the greedy one if and only if, for every two overlapping pieces, the rest of the second costs no more than the text before the overlap |
| `Tokenizer.SuffixClosedIsOptimal` | scripts/vocab_bpe_probe.js:9-13 | A vocabulary closed under non-empty suffixes makes the greedy count minimal for every text |
| `Tokenizer.GreedyIsNotOptimalInGeneral` | scripts/vocab_bpe_probe.js:12 | Over "abc", "ab" and "cde" the text "abcde" takes three greedy pieces where two suffice |
| `ByteDecoder.SymbolsAreABijection` | scripts/vocab_byte_decoder.js:26-60 | A symbol belongs to a byte if and only if the byte has that symbol |
| `ByteDecoder.SymbolTable` | scripts/vocab_byte_decoder.js:26-46 | The alphabet in numbers: which bytes stand for themselves and where from U+0100 on the others go |
| `ByteDecoder.BuildByteToChar` | scripts/vocab_byte_decoder.js:26-54 | The three loops over kept ranges, shifted rest and final fill build the table in closed form |
| `ByteDecoder.BuildCharToByte` | scripts/vocab_byte_decoder.js:58-60 | The inverse table has the 256 symbols as keys and gives each its byte |
| `ByteDecoder.SymbolsRoundTrip` | scripts/vocab_byte_decoder.js:26-60 | Every byte string mapped to symbols and back through the inverse table is restored |
| `ByteDecoder.DecodeByteLevelToken` | scripts/vocab_byte_decoder.js:77-96 | The loop over code points with its guard and fallback computes the decoder |
| `ByteDecoder.DecodingKeepsTextExactlyWhen` | scripts/vocab_byte_decoder.js:71-96 | A token's text is kept if and only if it has no code point in A1-AC or AE-FF or its bytes are not valid text |
| `ByteDecoder.SymbolsOfTextAreChanged` | scripts/vocab_byte_decoder.js:73-75 | The failing family of the "safe" claim: symbols of valid text of kept bytes are taken for that text, and are changed if and only if a byte is not ASCII |
| `ByteDecoder.OrdinaryTextIsChanged` | scripts/vocab_byte_decoder.js:73-75 | The ordinary text U+00C3 U+00A9 is decoded to U+00E9 and flagged as byte-level |
| `ByteDecoder.SafeToTry` | scripts/vocab_byte_decoder.js:73-75 | Without such a code point decoding returns the token and its UTF-8 bytes, flagged unless it holds U+FFFD |
| `ByteDecoder.DecoderUndoesAlphabetExactlyWhen` | scripts/vocab_byte_decoder.js:77-96 | The decoder gives back the bytes behind a token if and only if they are valid text of kept bytes only |
| `ByteDecoder.ShiftedSymbolsStay` | scripts/vocab_byte_decoder.js:81-95 | Every character from U+0100 on, so each of the 68 shifted symbols, is in the decoded text of every token that holds it |
| `ByteDecoder.SpaceStaysShifted` | scripts/vocab_byte_decoder.js:81 | A word behind a space keeps the symbol U+0120 and never gets its bytes back |
| `Utf8.DecodeEncoded` | scripts/vocab_byte_decoder.js:86-90 | Decoding undoes encoding, whatever bytes follow (section 3 of RFC 3629) |
| `Utf8.EncodeDecode` | scripts/vocab_byte_decoder.js:90-91 | Bytes that decode without U+FFFD are restored by encoding |
| `Utf8.EncodedForm` | scripts/vocab_byte_decoder.js:86-88 | The encoding has the bit patterns of section 3 of RFC 3629, length by length |
| `Utf8.BadPartIsMaximal` | scripts/vocab_byte_decoder.js:90 | No encoding shares more bytes with an ill-formed text than the part that one U+FFFD replaces |
| `Utf8.BadPartIsBegun` | scripts/vocab_byte_decoder.js:90 | That part is a single byte or a proper beginning of some encoding |
| `DocLinks.FixIsByPlace` | scripts/normalize-doc-links.py:55-73 | The chain of join, normpath, relpath and suffix tests decides and rewrites as a description by places in the file tree does |
| `DocLinks.RewritesExactlyWhen` | scripts/normalize-doc-links.py:55-73 | A link is rewritten if and only if it is of none of the five external kinds, its path leads to an existing place not on the way to the root, and that place is named `base.md` or `base.ru.md` and exists in the wanted form as well |
| `DocLinks.OtherFormIsWanted` | scripts/normalize-doc-links.py:41-47 | The wanted variant of a markdown name is another, existing one exactly if the name is of the unwanted form and the other form is there |
| `DocLinks.PartitionLacks` | scripts/normalize-doc-links.py:59 | The path of a link ends before its first `#`, and its anchor starts there |
| `DocLinks.RewrittenLinksResolve` | scripts/normalize-doc-links.py:4-10 | A rewritten link keeps its anchor and resolves, from its document's directory, to an existing other place, in the wanted language unless the old name was doubled |
| `DocLinks.RewrittenLeadsExactlyWhen` | scripts/normalize-doc-links.py:55-73 | A rewritten link is matched by the pattern, taken for a file link and leads to the counterpart if and only if the last name of its target has no `#`, blank or `)` and the way down to it does not begin with a name like `data:` or `mailto:` |
| `DocLinks.NeverDiesExactlyWhen` | scripts/normalize-doc-links.py:8-10 | A link stays alive in every file tree if and only if its target has no other form or is not spoiled in that way |
| `DocLinks.NoDeadLinks` | scripts/normalize-doc-links.py:8-10 | In any file tree a live link is alive after the pass unless its target is spoiled |
| `DocLinks.SpoiledDirectoryKills` | scripts/normalize-doc-links.py:59-73 | One failing family: below a directory named like a markdown file with a `#`, blank or `)` in its name, the link up to it can die |
| `DocLinks.SchemeNameKills` | scripts/normalize-doc-links.py:57-73 | The other, in every directory: a live link `./data:`... becomes one that the script itself takes for external |
| `DocLinks.ExternalExactly` | scripts/normalize-doc-links.py:57 | A relative path is taken for external if and only if the first name on the way down begins like a scheme |
| `DocLinks.LanguageOfWanted` | scripts/normalize-doc-links.py:41-47 | The wanted variant is of the wanted language, and wanting it again changes nothing, exactly when the name is not doubled or Russian is wanted |
| `DocLinks.SecondPassExactly` | scripts/normalize-doc-links.py:24-73 | In every directory a second pass with the same verdict, reading of the new text what the pattern reads, leaves it alone if and only if the link is neither doubled with all shorter forms present nor a link up to a directory with a breaking name that is read all the same and whose stem leads to a place with a counterpart |
| `DocLinks.DoubledNeighbourIsChangedTwice` | scripts/normalize-doc-links.py:41-47 | The first failing family: a link to a neighbour with a doubled mark is changed by both of two English passes |
| `DocLinks.BrokenDirectoryIsChangedTwice` | scripts/normalize-doc-links.py:55-73 | The second: the link `.` below a directory like `a.md#b.md` or `a.md).md` is changed by both of two Russian passes, though nothing is doubled |
| `DocLinks.UncleanTarget` | scripts/normalize-doc-links.py:24-73 | What the pattern reads of a text rewritten to a breaking name, and where that leads: on from the directory's parent to the part of the name before the break |
| `DocLinks.DocumentPassIsIdempotentExactly` | scripts/normalize-doc-links.py:50-80 | For all links of a document at once: a second pass over what the first one wrote changes nothing if and only if none of the links is unstable |
| `DocLinks.TextPassIsIdempotentExactly` | scripts/normalize-doc-links.py:75-80 | On the text itself: a second pass, which searches the whole new text for links, does to each link what it does to that link alone, and changes the text if and only if one of the links is unstable |
| `LinkPattern.RenderParse` | scripts/normalize-doc-links.py:24 | Reading a text as links and the text around them loses nothing |
| `LinkPattern.ParseRender` | scripts/normalize-doc-links.py:24 | Links whose targets are exchanged for other targets are found again at the same places, and no others |
| `LinkPattern.MatchExactlyWhen` | scripts/normalize-doc-links.py:24 | A link starts at a bracket if and only if a label without closing bracket, a closing bracket, a parenthesis, a target without parenthesis and white space and a closing parenthesis follow; its target stands behind the label |
| `LinkPattern.FirstIsLeftmost` | scripts/normalize-doc-links.py:75 | The search finds the link that starts first |
| `LinkPattern.SubstituteTwice` | scripts/normalize-doc-links.py:24-75 | A second substitution, on a text whose targets were exchanged, exchanges in each what the pattern reads of it up to a closing parenthesis, leaves alone what meets a blank, and finds no other link |
| `LinkPattern.FirstStays` | scripts/normalize-doc-links.py:24 | The first link of a text stays the first one when its target and what follows are exchanged |
| `LinkPattern.BlockedStays` | scripts/normalize-doc-links.py:24 | With a text that meets a blank in the place of its target, no link starts before or in it |
| `LinkPattern.RenderDiffers` | scripts/normalize-doc-links.py:76 | Texts are the same only if the targets are, once what the pattern reads of them differs wherever they do |
| `DocLinks.Fix` | scripts/normalize-doc-links.py:50-80 | Substituting the links of a text rewrites exactly their targets and reports whether the text changed |
| `DocLinks.Documents.Normalise` | scripts/normalize-doc-links.py:83-97 | Every document ends as the substituted text seen from its own directory and by its own verdict, whatever the order, or untouched in a dry run; the count is that of the documents that change |
| `PosixPath.PlaceOfJoin` | scripts/normalize-doc-links.py:62 | Joining to a directory and reducing leads where the path leads from that directory |
| `PosixPath.ResolveWalks` | scripts/normalize-doc-links.py:62 | Where a path leads from a directory, part by part: a dot stays, a double dot goes up but not above the root, a name goes down, doubled slashes are one, and a slash in front starts at the root |
| `PosixPath.NormalForm` | scripts/normalize-doc-links.py:62 | Normalising an absolute path keeps its place and leaves only proper names |
| `PosixPath.RelpathIs` | scripts/normalize-doc-links.py:65-72 | The relative form goes up from the common prefix and down again |
| `PosixPath.RelTextResolves` | scripts/normalize-doc-links.py:72 | Seen from its start the relative form resolves to the path it was made from |
| `LayerPlan.AssignmentRoundTrip` | c/bridge/layers_plan.go:80-109 | For every layer number, padding, prefix without the marker, device name and tail the printed line parses back to number and device |
| `LayerPlan.EndpointRoundTrip` | c/bridge/layers_plan.go:118-139 | For every device, address and padding the printed address line parses back to both |
| `LayerPlan.AtoiRoundTrip` | c/bridge/layers_plan.go:91 | Decimal printing and reading are inverse over the 64-bit integers |
| `AssignmentLines.AssignmentLineExactlyWhen` | c/bridge/layers_plan.go:80-109 | A line assigns a layer to a device if and only if it holds the marker, the last "layer" before the first marker is followed by white space, the number, white space, blanks or commas and white space, and the marker by white space and a name that ends before a comma, blank or tab; so a marked line without a number or a name is none |
| `AssignmentLines.NumberExactly` | c/bridge/layers_plan.go:90-91 | Trimming and conversion give a number exactly if the text is that number in white space, with blanks and commas behind it |
| `AssignmentLines.DeviceExactly` | c/bridge/layers_plan.go:95-107 | Trimming and cutting give a device exactly if that name stands at the start, but for white space, before a comma, blank, tab or the end |
| `AssignmentLines.AtoiExactlyWhen` | c/bridge/layers_plan.go:91 | A text is read as a 64-bit integer if and only if it is a sign or none, zeros, and the usual decimal form |
| `LayerPlan.MarkerPosition` | c/bridge/layers_plan.go:81 | The first marker of a printed line is the printed one |
| `LayerPlan.LayerPosition` | c/bridge/layers_plan.go:86 | The last "layer" before the marker is the printed one, even if the prefix holds others |
| `LayerPlan.BracketFreeIsNoEndpoint` | c/bridge/layers_plan.go:119-122 | A line without a bracket, or with one in first place, is never taken for an address line |
| `LayerPlan.AddressLineExactlyWhen` | c/bridge/layers_plan.go:118-139 | A line is read as the address line of a device if and only if its first bracket stands, but for white space, right behind that name, which starts with RPC at the start of the line or behind a blank or tab, and is closed behind something that is not white space |
| `LayerPlan.MisreadExactlyWhen` | c/bridge/layers_plan.go:144-150 | A line, be it a printed assignment, is taken for an address line if and only if it has that form |
| `LayerPlan.LastLineWins` | c/bridge/layers_plan.go:144-166 | After any stream of lines and resets each layer has the device, and each device the address, of the last line naming it since the last reset |
| `LayerPlan.ResetForgets` | c/bridge/layers_plan.go:161-166 | Lines before a reset have no effect |
| `LayerPlan.RangesTellTheLog` | c/bridge/layers_plan.go:168-210 | In a canonical list for the plan after a log, every range carries the device and address the log named last, and exactly the named layers are shown |
| `LayerPlan.PrintedLineIsRead` | c/bridge/layers_plan.go:144-158 | A printed assignment, address or unrelated line is read as what it was printed from and as nothing else |
| `LayerPlan.PrintedLogIsThePlan` | c/bridge/layers_plan.go:144-166 | From printer to plan: after a log of printed lines and loads each layer has the device, and each device the address, printed last for it since the last load |
| `LayerPlan.CanonicalIsUnique` | c/bridge/layers_plan.go:168-210 | A plan has one canonical list of ranges only |
| `LayerPlan.CanonicalIsShortest` | c/bridge/layers_plan.go:168-210 | No list of true ranges that covers all layers, sorted or not, is shorter |
| `LayerPlan.RunStart` | c/bridge/layers_plan.go:200-206 | The layer before a range is on another device or absent |
| `LayerPlan.RunEnd` | c/bridge/layers_plan.go:200-206 | So is the layer behind it |
| `LayerPlan.DeviceLayers.Record` | c/bridge/layers_plan.go:144-158 | One line updates at most one map, the address map first |
| `LayerPlan.DeviceLayers.ResetLayers` | c/bridge/layers_plan.go:161-166 | Both maps are empty |
| `LayerPlan.DeviceLayers.Consume` | c/bridge/layers_plan.go:144-166 | A stream of lines and resets leaves the plan of the specification |
| `LayerPlan.DeviceLayers.Snapshot` | c/bridge/layers_plan.go:171-210 | The loop returns the canonical list: sorted, disjoint, true, complete, nothing mergeable, counts adding up to the number of layers |
| `IntKeys.SortedKeys` | c/bridge/layers_plan.go:186-190 | The keys of the map in strictly ascending order, each once |
| `BatchBuilder.BuildBatchWithSeq` | c/bridge/bridge.c:231-257 | Each of the five arrays holds at each position what it should: token, position from the start on, one sequence id, that id, and logits at the last token only; an empty input gives an empty batch |
| `BatchBuilder.BuildBatchedBatch` | c/bridge/bridge.c:274-338 | Each token of each sequence stands behind all earlier sequences in all five arrays, and the count is the sum of the lengths |
| `BatchBuilder.Copy` | c/bridge/bridge.c:310-327 | The inner loop extends the filled prefix by one sequence and spoils nothing before it |
| `BatchBuilder.Batch.Put` | c/bridge/bridge.c:319-325 | One position is filled in all five arrays and no other changes |
| `BatchBuilder.CellOfSequence` | c/bridge/bridge_internal.h:57-62 | Token j of a sequence sits at the sum of the earlier lengths plus j with its own id and position |
| `BatchBuilder.PositionOwner` | c/bridge/bridge_internal.h:56-62 | Every position of the batch is a token of some sequence |
| `BatchBuilder.LogitsExactlyAtLastTokens` | c/bridge/bridge_internal.h:60-61 | Logits are asked for at a position if and only if it is the last token of a non-empty sequence |
| `BatchBuilder.OneLogitPerSequence` | c/bridge/bridge_internal.h:60-61 | There are as many requests for logits as non-empty sequences |
| `BatchBuilder.EmptySequencesAddNothing` | c/bridge/bridge_internal.h:64-66 | Leaving out empty sequences builds the same batch |
| `BatchBuilder.SingleSequence` | c/bridge/bridge_internal.h:30-47 | One sequence gives the batch of the one-sequence builder |
| `BatchBuilder.LastTokenAsksForLogits` | c/bridge/bridge.c:661-663 | The position from which a row is fetched holds the last token of that sequence and asks for logits |
| `BatchBuilder.OffsetSteps` | c/bridge/bridge_internal.h:56-58 | Sequences stand in the order given, each starting where the one before it ends |
| `BatchBuilder.NothingExactlyWhen` | c/bridge/bridge.c:613 | Nothing is in the batch if and only if every sequence is empty |
| `BatchBuilder.BatchedDecode` | c/bridge/bridge.c:571-676 | The status of every case, missing arguments included; on failure no float is written; on success the row of a sequence is that of the batch position of its last token, or zero if there is none; rows of empty sequences stay, all rows are zeroed if all are empty, and nothing behind the rows is written |
| `BatchBuilder.CopyRows` | c/bridge/bridge.c:652-671 | Each row is copied from the batch position of the last token of its sequence, and zeroed if the position has no logits; rows of empty sequences and the rest of the buffer stay |
| `BatchBuilder.CopyRow` | c/bridge/bridge.c:666-668 | Copying one row into the flat buffer changes no other row and nothing behind |
| `BatchBuilder.ZeroRows` | c/bridge/bridge.c:615 | All rows are zero and nothing behind them changes |
| `BatchBuilder.RowsApart` | c/bridge/bridge.c:666-668 | Rows of the flat buffer do not overlap |
| `StreamFraming.Stream.Data` | scripts/cline-agent-loop.js:73-81 | After a chunk all finished lines of the text so far are consumed and the unfinished one is in the buffer |
| `StreamFraming.Stream.End` | scripts/cline-agent-loop.js:82-86 | At the end the turn is the fold over the lines of the whole text |
| `StreamFraming.Stream.Consume` | scripts/cline-agent-loop.js:94-99 | A blank line changes nothing, an unreadable one is reported with its first hundred characters, a line like `null` crashes, a keepalive is only counted, any other is merged |
| `StreamFraming.Stream.Merge` | scripts/cline-agent-loop.js:100-121 | A reply extends errors, content, leaks, thinking and calls in order, and only a final one sets the end and its reason |
| `StreamFraming.FindLeaks` | scripts/cline-agent-loop.js:106-109 | The loops over the three marker lists and the test for a raw call add their complaints in order |
| `StreamFraming.FindMarkers` | scripts/cline-agent-loop.js:106-108 | One loop adds a complaint for each marker that occurs |
| `StreamFraming.NoLeakExactlyWhen` | scripts/cline-agent-loop.js:52-55 | A content gives no complaint if and only if none of the markers occurs in it anywhere and no key of a raw call stands before a colon |
| `StreamFraming.CrashesExactlyWhen` | scripts/cline-agent-loop.js:94-116 | The process crashes on a response if and only if one of its lines that are not blank is one whose fields cannot be looked at |
| `StreamFraming.OneTurn` | scripts/cline-agent-loop.js:61-92 | For every way of cutting a text into chunks the turn is the same |
| `StreamFraming.OnlyNonBlankLinesCount` | scripts/cline-agent-loop.js:95 | Blank lines may be left out without changing the turn |
| `StreamFraming.BlankIsSkipped` | scripts/cline-agent-loop.js:83-95 | A blank rest at the end may be consumed or not, with the same result |
| `StreamFraming.AgentLoop` | scripts/cline-agent-loop.js:168-238 | Each turn is what the server answered to the history of the turns before it; behind the start the history holds each turn with calls, its content and calls followed by one result per call, and nothing else; the run ends at the limit, at a turn without calls, at a failed request or at a line that crashes it, and is correct exactly if all turns are clean and there was not just one |
| `StreamFraming.HistoryHoldsTurns` | scripts/cline-agent-loop.js:206-218 | For every start and all turns: turn i with calls stands in the history at the sum of the messages of the turns before it, as an assistant message and one result for each call, and the lengths add up |
| `StreamFraming.TurnHoldsReplies` | scripts/cline-agent-loop.js:94-120 | Content, thinking, calls and errors of a turn are those of its replies, end to end in line order; blank, unreadable and keepalive lines add nothing |
| `StreamFraming.TurnEndsWithLastDone` | scripts/cline-agent-loop.js:121 | A turn is done if and only if one of its replies is, with the reason of the last such, and has no reason otherwise |
| `StreamFraming.TurnCountsLines` | scripts/cline-agent-loop.js:94-109 | All readable lines are counted, keepalives too; the complaints are those of the lines in order, about the unreadable ones and about each content |
| `StreamFraming.LeaksExactly` | scripts/cline-agent-loop.js:106-109 | The complaints about a content: kind and quoted start for each occurring marker in list order, then for a raw call |
| `StreamFraming.JoinConcat` | scripts/cline-agent-loop.js:73-76 | Chunks are joined in the order of their arrival |
| `StreamFraming.DialogueNext` | scripts/cline-agent-loop.js:176-218 | Answering the current history extends the dialogue |
| `StreamFraming.TurnProblems` | scripts/cline-agent-loop.js:183-204 | No problem is counted exactly when the turn is clean |
| `StreamFraming.RoundIsAnswered` | scripts/cline-agent-loop.js:206-218 | An assistant message with its results keeps the history answered |
| `StreamFraming.AnsweredMore` | scripts/cline-agent-loop.js:206-218 | Answered histories compose |
| `StreamFraming.Complaints` | scripts/cline-agent-loop.js:201-204 | No complaint is counted exactly when every call fits its schema |
| `Lines.SplitJoins` | scripts/check_braces.js:11 | Cutting at a separator and joining again gives back the text, and no part holds the separator |
| `Lines.JoinSplits` | scripts/check_braces.js:11 | Joining parts without separators and cutting gives back the parts |
| `Lines.SplitMore` | scripts/cline-agent-loop.js:74-80 | More text only continues the last line: the reason why chunks do not matter |
| `BraceChecker.CheckBraces` | scripts/check_braces.js:5-42 | The line-by-line checker with its flags ends with the counters, first error and open modes of a scan of the whole text |
| `BraceChecker.CheckLine` | scripts/check_braces.js:15-40 | The inner loop with its skipped characters computes the scan of one line |
| `BraceChecker.Count` | scripts/check_braces.js:34-39 | One bracket moves one counter and the first error is kept |
| `BraceChecker.LineByLine` | scripts/check_braces.js:13-42 | Scanning line by line is scanning the whole text |
| `BraceChecker.EveryTextHasTokens` | scripts/check_braces.js:20-33 | Every text is a list of code characters, literals and comments, with at most one unclosed piece at its end |
| `BraceChecker.ScanTokens` | scripts/check_braces.js:13-42 | The counters hold the effect of the code characters alone, and what is open at the end is what the tail says |
| `BraceChecker.ScanTail` | scripts/check_braces.js:44-47 | A literal or comment that is never closed counts nothing and is reported open |
| `BraceChecker.EffectsCount` | scripts/check_braces.js:34-39 | Each counter is the level of its own brackets, and there is no error if and only if no kind ever closes more than was open |
| `BraceChecker.ErrorIsFirst` | scripts/check_braces.js:35-39 | The reported error is the first closing bracket with none of its kind open, with the line of its own place in the text |
| `BraceChecker.BalancedExactlyWhen` | scripts/check_braces.js:34-39 | A word of brackets is properly nested if and only if its level ends at zero and is never below |
| `BraceChecker.AcceptsExactlyWhenBalanced` | scripts/check_braces.js:13-46 | No error and zero depths are reported if and only if each kind of bracket outside strings and comments is properly nested |
| `BracketNesting.AcceptsNestedAndCrossed` | scripts/check_braces.js:13-46 | Every text whose code is properly nested in all kinds together is accepted; an accepted text is not nested if and only if two pairs of different kinds cross |
| `BracketNesting.CrossedBracketsAreAccepted` | scripts/check_braces.js:34-39 | "([)]" is accepted, crosses and is not properly nested: kinds are not compared with each other |
| `BracketNesting.NestedExactlyWhen` | scripts/check_braces.js:34-39 | Code is properly nested if and only if each kind is balanced and no two pairs of different kinds cross |
| `BracketNesting.UncrossedIsNested` | scripts/check_braces.js:34-39 | From balanced kinds without a crossing a nesting is built |
| `BracketNesting.NestedHasNoCross` | scripts/check_braces.js:34-39 | Nested code has no crossing, at any four positions |
| `BracketNesting.UnbalancedCrosses` | scripts/check_braces.js:34-39 | A kind that is balanced in the whole but not inside a pair of another kind crosses that pair |
| `BraceChecker.BlankingChangesNothing` | scripts/check_braces.js:20-33 | Blanking the inside of strings and comments changes neither counters nor error nor what is left open |
| `BraceChecker.BlankedIsWellFormed` | scripts/check_braces.js:20-33 | A blanked text has the blanked tokens, of the same length and with the same line ends |

## Left out

- RPC: sockets, the queue's locks and its interruption, the destructor and the handshake are not modelled. The queue is first in, first out with one consumer, each locked section is one step, and the outcome of a send is any the network may choose.
- GGUF: the file system, tensor data and the numbers behind floating-point bits (kept as bit patterns). The JavaScript stack limit for deep nesting and memory limits of large arrays are not modelled.
- `GgufFiles.ReadsExactlyTheFiles`: for buffers of fewer than 2^53 bytes; in a longer one a count that is no double would be rounded before it is used.
- Byte decoder: lone surrogates in tokens, and the ratio heuristic of `detectByteLevel`.
- Tokenizer: the printed tables. The runtime's sort is taken to be stable, which does not matter for the results.
- JSON cut: parsing the fragment again and writing the output file. Characters stand for UTF-16 units. The digits behind `\u` are not required to be hexadecimal, which only widens the set of texts covered.
- Layer plan: the log callback, the mutex and `installLogCapture`. Go's byte strings are modelled as decoded characters.
- Batches: freeing memory. The result of the decode call and its logits are parameters, and floats are reals. Overflow of the 32-bit token counter is excluded, since it is undefined in C.
- `BatchBuilder.BatchedDecode`: the product of row number and vocabulary size is taken as unbounded, because its overflow of 32 bits is undefined in C.
- `StreamFraming.Stream.Consume`: reading a line as JSON is a parameter, and so is which of its fields holds thinking.
- `StreamFraming.Stream.Merge`: reading call arguments and quoting a text are parameters, and the time of the first content is left out.
- `StreamFraming.AgentLoop`: the text of the canned result and the identifiers of calls are left out; a result names its call and arguments.
- Stream: HTTP, timeouts, decoding of chunks to characters, and all printed text. The schema check of a call is a parameter.
- Brace checker: the excerpt of the line in the error text. Regular expressions and template substitutions are not lexed, as in the source.
- Links: the POSIX flavour of paths only, with an absolute root that starts with one slash, and no symbolic links. No name in the file tree holds a backslash.
- `DocLinks.SecondPassExactly`: the verdict on the document's language is a parameter, the same in both passes.
- `DocLinks.TextPassIsIdempotentExactly`: leaves out texts with a link that is rewritten to a directory name with a blank or `)` and whose name or anchor holds an opening bracket as well, because what the pattern leaves unread there can become the start of another link; for such a link alone `DocLinks.SecondPassExactly` holds.
- Links: the language ratio and the filter by category and file name are not modelled.
- The probes, diagnostics, documentation gates and load tests of the repository: input and output without an algorithm.
