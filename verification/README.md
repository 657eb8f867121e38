# Verification of the SDK's JSON library, counters and state machines

This project is a Dafny model of the parts of the SDK whose correctness is hard to see by reading,
with proofs over every input, run or interleaving. `dafny verify dfyconfig.toml` checks it.

## What is modelled

**The bundled JSON library.** Values are trees with the source offsets the library keeps; maps are
sequences of entries sorted by key. `JsonReader.Reader` is the recursive reader as an object with
its position, node stack, error list and depth counter; it is proved to compute the functions of
`JsonLexer` and `JsonParser`, which describe the same on the remaining text.
`JsonWriterClasses.FastWriter` and `StyledWriter` append to a document, the latter with its shared
scratch buffer; they are proved to compute `FastText` and `StyledDoc`. `JsonTokens` gives the
token texts as a grammar, `JsonGrammar` the texts of whole values with their meaning, and proves
that the reader accepts exactly these; `JsonErrors` says which error it reports otherwise. The
writers and the reader meet in the *lexemes* of a value, the token texts it consists of: both
writers produce texts that are tokenized as the lexemes (`JsonWriters`, `JsonStyled`), and reading
any text with these lexemes gives the value back (`JsonLexemes`). `JsonLayout` gives both texts
character by character. `JsonSlices` is about the offsets, `JsonDuplicates` about repeated member
names, `JsonCanonical` about the trees a parse can yield, `JsonOrder` about comparison,
`JsonNumbers` and `JsonStrings` about 64-bit decimals, UTF-8, UTF-16 escapes and quoting.

**The saturating reference counter.** `Refcount` has the lock version as a class and the
compare-and-swap version as steps of any number of threads; a weak exchange may fail for no reason,
and `abort` leaves its thread stuck.

**The dependency tracker.** `Dependencies` has the breadth-first search and the cut analysis as
methods over a map from files to their edges.

**Stats transactions.** `Stats` has the handler as a class, every event as a step on its state, and
the loop that drains pending records into reports.

**The QUIC stream.** `QuicStream` has the stream as a class whose delegate calls are recorded in a
log.

**Addresses and host names.** `IpAddress` has the contraction search and the printers, with
independent readers for the texts; `HostName` has the host check with its grammar.

## Reading the model

- Text is a sequence of characters, one for each byte; the reader sees a NUL at the end. The results
  hold for larger characters too. Bit masks and shifts are written with `%`, `*` and `/`.
- The *normal form* of a value is what a round trip returns: integers are signed up to 2^31-1 and
  unsigned above, array holes are nulls, of members with one name the last stays, offsets are
  dropped. The *height* is the number of nested
  `readValue` calls.
- The conversion from text to double and the printing of reals are function parameters.
- The stack-limit exception is a result of its own (`Throw`), which every caller passes on.
- The node stack holds the values themselves. The source holds pointers into the tree; here a child
  is written back into its parent when it is popped.

## Where the code decides

The proofs follow the code in these places, where one might expect something else.

- The early return for an unexpected token leaves the depth counter one too high. This happens at
  most once in a parse, because the first error ends it (`Tidy` in `JsonParser`).
- The reader stops after the first value: text behind it is not looked at beyond one token.
- After a comment that follows a member's value, any token except a closing brace passes for a
  comma, and `{"": 1, }` is accepted because the closing brace is accepted while the last name is
  empty.
- A number token of a single minus sign reads as 0.
- After a high surrogate the second escape is not checked for being a low one. The code point is
  still at most 0x10FFFF.
- The styled writer passes member names as NUL-terminated strings, so it cuts them; the exact
  condition is `JsonStyled.StyledSameTokens`.
- `critical_node` leaves behind the excludes of the last header it tried.
- A success with another batch in flight, a success for an id that is not in flight, and a
  delete-all make the store forget what stays in flight; the exact conditions are
  `Stats.DurableExactly`, `Stats.StoreIsComplete` and `Stats.RestartRecovers`.
- A negative batch size takes everything, and zero trips the source's assertion, which is why the
  model asks for a size other than zero.
- The smallest 64-bit integer is negated before it is printed; the model reads that as two's
  complement.
- Nothing pending still makes one empty report.
- After a failure, data that arrives is still delivered if the response was.
- The comment of the host check says it rejects IP addresses; the code does not
  (`HostName.AcceptsPrintedIPv4`, `HostName.MeetsItsComment`).

## Model

| member | source | states |
|---|---|---|
| JsonNumbers.DecodeInteger | RevSDK/RevSDK/libs/json/jsoncpp.cpp:735-773 | the 64-bit accumulator loop with its early exits returns exactly `IntegerOf`: an optional '-' and then digits only, with magnitude at most 2^63 or 2^64-1, gives that integer; anything else goes to the double conversion; the accumulator never exceeds the allowed magnitude |
| JsonNumbers.EarlyStop | RevSDK/RevSDK/libs/json/jsoncpp.cpp:751-764 | whenever the loop gives up early, on a non-digit or on its threshold test, the whole token is indeed no integer in range |
| JsonNumbers.NoOverflow | RevSDK/RevSDK/libs/json/jsoncpp.cpp:745-765 | whenever the loop goes on, the value accumulated so far is within the largest magnitude, so the next step cannot wrap around |
| JsonNumbers.DecimalRoundTrip | RevSDK/RevSDK/libs/json/jsoncpp.cpp:735-773 | decoding the decimal text of any n in [-2^63, 2^64) gives n, signed up to 2^31-1 and unsigned above |
| JsonNumbers.UIntToString | RevSDK/RevSDK/libs/json/jsoncpp.cpp:148-155 | the backward digit loop writes the decimal numeral and a NUL below the end it starts from, using at most 21 of the 25 bytes and touching no index outside the buffer |
| JsonNumbers.IntToText | RevSDK/RevSDK/libs/json/jsoncpp.cpp:3971-3983 | the text of a signed integer is its signed decimal, the smallest value included |
| JsonNumbers.UIntToText | RevSDK/RevSDK/libs/json/jsoncpp.cpp:3985-3990 | the text of an unsigned integer is its decimal |
| JsonStrings.Utf8IsUnique | RevSDK/RevSDK/libs/json/jsoncpp.cpp:104-130 | a byte string decodes under a reader for section 3 of RFC 3629 to v if and only if v is a Unicode scalar value and the bytes are what codePointToUTF8 gives for v: the bytes are unique, and lone surrogates never give UTF-8 |
| JsonStrings.CodePointBound | RevSDK/RevSDK/libs/json/jsoncpp.cpp:861-886 | no escape, not even one with a malformed second half, yields a code point above 0x10FFFF, and each consumes input |
| JsonStrings.EscapesBecomeUtf8 | RevSDK/RevSDK/libs/json/jsoncpp.cpp:808-886 | the one-escape or surrogate-pair form of every scalar value (section 7 of RFC 8259) is decoded to the unique UTF-8 bytes of that value, wherever it stands in a string |
| JsonStrings.HexIsRead | RevSDK/RevSDK/libs/json/jsoncpp.cpp:888-916 | four characters are read as a number if and only if they spell it in hexadecimal, the highest digit first, in either case |
| JsonStrings.SimpleEscapesAre | RevSDK/RevSDK/libs/json/jsoncpp.cpp:814-845 | the eight other escapes and the characters they stand for; any further letter is an error |
| JsonStrings.MalformedEscapes | RevSDK/RevSDK/libs/json/jsoncpp.cpp:861-916 | which error each malformed escape gives |
| JsonStrings.QuotedStringN | RevSDK/RevSDK/libs/json/jsoncpp.cpp:4120-4181 | both paths of the quoting function, verbatim copy and escaping loop, give the same text |
| JsonStrings.QuoteRoundTrip | RevSDK/RevSDK/libs/json/jsoncpp.cpp:4120-4181 | quoting and then decoding is the identity on every byte string, NULs included |
| JsonStrings.EscapesAreShortest | RevSDK/RevSDK/libs/json/jsoncpp.cpp:4120-4181 | a character takes two places exactly if it has a short escape, six if it is another control character and one otherwise, and what is written has no control character and no lower-case hex digit: with the round trip, every written character is fixed |
| JsonStrings.CStringIsWhole | RevSDK/RevSDK/libs/json/jsoncpp.cpp:4309-4322 | a key passed as a NUL-terminated string survives if and only if it holds no NUL |
| JsonValue.PutIsMapUpdate | RevSDK/RevSDK/libs/json/jsoncpp.cpp:3258-3348 | assignment through `operator[]` keeps the entries sorted, binds the key and changes no other key |
| JsonOrder.StrictTotalOrder | RevSDK/RevSDK/libs/json/jsoncpp.cpp:2830-2932 | `operator<` is irreflexive, asymmetric and transitive on values of any nesting; incomparable is `operator==`, which is identity up to offsets; `compare` is negative exactly on less and 0 exactly on equal, antisymmetric and transitive |
| JsonOrder.PairsCompose | RevSDK/RevSDK/libs/json/jsoncpp.cpp:2871-2877 | lexicographic map comparison composes entry by entry: the pair order is a weak order on key and value together |
| JsonOrder.TypesInOrder | RevSDK/RevSDK/libs/json/jsoncpp.cpp:2830-2833 | values of different types are in the order null, signed, unsigned, real, string, boolean, array, object |
| JsonOrder.ScalarsInOrder | RevSDK/RevSDK/libs/json/jsoncpp.cpp:2834-2870 | numbers of one type by size, false before true, a null string first, strings by the first byte in which they differ, a beginning before what continues it |
| JsonOrder.MapsInOrder | RevSDK/RevSDK/libs/json/jsoncpp.cpp:2871-2877 | fewer entries first; with as many, the first entry in which the two differ decides, by its key and then by its value |
| JsonValue.KeyLessTransitive | RevSDK/RevSDK/libs/json/jsoncpp.cpp:2609-2620 | the byte-then-length order of member names and the order of indices are transitive |
| JsonValue.KeyLessTrichotomy | RevSDK/RevSDK/libs/json/jsoncpp.cpp:2609-2631 | of two keys exactly one is smaller unless they are equal |
| JsonValue.TextLessIsDictionary | RevSDK/RevSDK/libs/json/jsoncpp.cpp:2609-2620 | a name is smaller if and only if, behind a common beginning, it ends first or has the smaller byte |
| JsonReader.Reader.GetNextChar | RevSDK/RevSDK/libs/json/jsoncpp.cpp:950-954 | reads a NUL at the end and never moves past it |
| JsonReader.Reader.Match | RevSDK/RevSDK/libs/json/jsoncpp.cpp:507-516 | a keyword is consumed whole or not at all |
| JsonReader.Reader.ScanNumberHere | RevSDK/RevSDK/libs/json/jsoncpp.cpp:597-617 | stops where the longest number shape of the specification stops |
| JsonReader.Reader.ScanStringHere | RevSDK/RevSDK/libs/json/jsoncpp.cpp:619-629 | stops after the closing quote, skipping escaped characters, or fails at the end |
| JsonReader.Reader.NextToken | RevSDK/RevSDK/libs/json/jsoncpp.cpp:426-495 | the token and the rest of the input are those of the specification's `ReadToken`; any token but the end of the stream consumes input |
| JsonReader.Reader.NextNonComment | RevSDK/RevSDK/libs/json/jsoncpp.cpp:416-424 | the same past any number of comments |
| JsonReader.Reader.RecoverFromError | RevSDK/RevSDK/libs/json/jsoncpp.cpp:928-939 | drops tokens up to the given kind or the end, terminates, and leaves the error list as it was |
| JsonReader.Reader.DecodeUnicode | RevSDK/RevSDK/libs/json/jsoncpp.cpp:861-916 | four hex digits, or a high surrogate with a second escape, with the error each malformed form raises |
| JsonReader.Reader.DecodeStringToken | RevSDK/RevSDK/libs/json/jsoncpp.cpp:797-859 | the decoded text or the one error of the specification's `Unescape` |
| JsonReader.Reader.DecodeNumberToken | RevSDK/RevSDK/libs/json/jsoncpp.cpp:725-795 | the integer when there is one, else the library's double, else an error |
| JsonReader.Reader.ReadValue | RevSDK/RevSDK/libs/json/jsoncpp.cpp:332-414 | result, rest of the input, value on top of the node stack, nodes below it, depth counter and errors are those of the specification; exactly the stack-limit case throws; on every path, thrown ones included, the depth counter stays at most 1000, the position in the document, and the range of every error in the document |
| JsonReader.Reader.ReadObject | RevSDK/RevSDK/libs/json/jsoncpp.cpp:631-685 | the same for one object, every error path included |
| JsonReader.Reader.ReadArray | RevSDK/RevSDK/libs/json/jsoncpp.cpp:687-723 | the same for one array, every error path included |
| JsonReader.Reader.Parse | RevSDK/RevSDK/libs/json/jsoncpp.cpp:290-330 | for every byte string the parse ends with a result or the stack-limit exception; the position, the ranges of all errors and the depth counter stay in bounds throughout; only the root is left on the node stack, and there is an error (exactly one) if and only if the parse failed; the depth counter ends at 0 or 1 |
| JsonTokens.NumberIsToken | RevSDK/RevSDK/libs/json/jsoncpp.cpp:597-617 | sign, digits, point with digits and exponent, with digits left out or not, are one number token whenever the next character does not continue them |
| JsonTokens.TokenIsNumber | RevSDK/RevSDK/libs/json/jsoncpp.cpp:597-617 | and every number token is of this form and as long as possible |
| JsonTokens.QuotedIsToken | RevSDK/RevSDK/libs/json/jsoncpp.cpp:619-629 | a quoted body, with a character behind every backslash and no bare quote, is one string token whatever follows |
| JsonTokens.TokenIsQuoted | RevSDK/RevSDK/libs/json/jsoncpp.cpp:619-629 | and every string token is of this form |
| JsonTokens.SpacesTaken | RevSDK/RevSDK/libs/json/jsoncpp.cpp:497-505 | exactly spaces, tabs, carriage returns and line feeds are passed over |
| JsonTokens.CommentVanishes | RevSDK/RevSDK/libs/json/jsoncpp.cpp:572-579 | a C comment, up to its first end mark, makes no difference |
| JsonTokens.LineCommentVanishes | RevSDK/RevSDK/libs/json/jsoncpp.cpp:581-595 | nor does a comment up to the end of its line |
| JsonGrammar.GrammarIsAccepted | RevSDK/RevSDK/libs/json/jsoncpp.cpp:290-723 | any text laid out with the tokens of a grammar tree is accepted with the tree's meaning, reals and escapes included, unless the tree is deeper than 1000, and then it is thrown out |
| JsonGrammar.AcceptsTheGrammar | RevSDK/RevSDK/libs/json/jsoncpp.cpp:290-723 | a document without comments is accepted if and only if it starts with the tokens of such a tree |
| JsonGrammar.NumberIsParsed | RevSDK/RevSDK/libs/json/jsoncpp.cpp:725-795 | a number text is the integer it denotes, signed or unsigned, if it has neither point nor exponent and fits; otherwise exactly what the library's conversion makes of the whole text, or an error |
| JsonErrors.ValueIsMissing | RevSDK/RevSDK/libs/json/jsoncpp.cpp:388-410 | a token that starts no value is reported as such, with its range |
| JsonErrors.NumberIsBad | RevSDK/RevSDK/libs/json/jsoncpp.cpp:785-795 | so is a number that neither decoder takes |
| JsonErrors.StringIsBad | RevSDK/RevSDK/libs/json/jsoncpp.cpp:808-859 | and a string with a malformed escape |
| JsonErrors.NameIsMissing | RevSDK/RevSDK/libs/json/jsoncpp.cpp:637-684 | behind an opening brace, a token that is neither a name nor the closing brace |
| JsonErrors.ColonIsMissing | RevSDK/RevSDK/libs/json/jsoncpp.cpp:658-662 | behind a name, a token that is no colon |
| JsonErrors.BraceIsMissing | RevSDK/RevSDK/libs/json/jsoncpp.cpp:670-676 | behind a member, a token that is neither comma nor brace nor comment |
| JsonErrors.BracketIsMissing | RevSDK/RevSDK/libs/json/jsoncpp.cpp:707-718 | behind an array's first element, a token that is neither comma nor bracket |
| JsonLexemes.ReadLexemes | RevSDK/RevSDK/libs/json/jsoncpp.cpp:332-723 | any text that the tokenizer splits into the lexemes of a value, with whatever spacing and with members in any order and any number of times, is read as the normal form of that value using exactly those tokens, unless its nesting exceeds what the stack allows, and then by the exception |
| JsonWriters.FastReads | RevSDK/RevSDK/libs/json/jsoncpp.cpp:4208-4260 | what the compact writer writes for v is tokenized as the lexemes of v |
| JsonWriters.FastRoundTrip | RevSDK/RevSDK/libs/json/jsoncpp.cpp:4200-4260 | `parse(write(v))` returns v in normal form without an error if v nests at most 1000 calls, and throws otherwise; for every valid v without reals and null string pointers, any strings, any holes in arrays |
| JsonStyled.StyledSameTokens | RevSDK/RevSDK/libs/json/jsoncpp.cpp:4268-4437 | the styled and the compact text have the same token sequence if and only if no member name holds a NUL |
| JsonStyled.CutLexemes | RevSDK/RevSDK/libs/json/jsoncpp.cpp:4309-4322 | cutting member names at NULs changes the lexemes exactly when some name holds one |
| JsonStyled.StyledWrites | RevSDK/RevSDK/libs/json/jsoncpp.cpp:4279-4407 | for any position, indentation and layout decision the styled text reads as the lexemes of the value with its names cut |
| JsonStyled.StyledRoundTrip | RevSDK/RevSDK/libs/json/jsoncpp.cpp:4268-4437 | `parse(styledWrite(v))` returns the normal form of v with its member names cut at NULs, the last of the members that became namesakes staying, or throws on the same nesting; this is the normal form of v itself if and only if no name holds a NUL |
| JsonLayout.FastIsInARow | RevSDK/RevSDK/libs/json/jsoncpp.cpp:4200-4260 | the compact text is the tokens in a row and nothing else, with the three options' exact effect |
| JsonLayout.StyledIsLayout | RevSDK/RevSDK/libs/json/jsoncpp.cpp:4268-4437 | the styled text character by character: each element and member starts a line indented by three spaces a level, and an array is on one line exactly if it has fewer than 25 elements, none with parts, and fits into 73 characters |
| JsonWriterClasses.FastWriter.Write | RevSDK/RevSDK/libs/json/jsoncpp.cpp:4200-4206 | the appending object produces the text the round trip is proved about |
| JsonWriterClasses.FastWriter.WriteArray | RevSDK/RevSDK/libs/json/jsoncpp.cpp:4235-4244 | the index loop writes stored elements and a null for every hole |
| JsonWriterClasses.FastWriter.WriteObject | RevSDK/RevSDK/libs/json/jsoncpp.cpp:4245-4260 | the members in key order with the colon the options ask for |
| JsonWriterClasses.StyledWriter.Write | RevSDK/RevSDK/libs/json/jsoncpp.cpp:4268-4277 | the object with its shared scratch buffer produces the text the styled round trip is proved about, and ends with no indentation and the buffer switched off |
| JsonWriterClasses.StyledWriter.WriteArrayValue | RevSDK/RevSDK/libs/json/jsoncpp.cpp:4338-4379 | an array is written on one line or many as the layout rule says; a nested array is only written while the buffer is off, so the buffer of an outer array is never overwritten while in use |
| JsonWriterClasses.StyledWriter.WriteLines | RevSDK/RevSDK/libs/json/jsoncpp.cpp:4344-4366 | when the scratch buffer is used it holds exactly the texts of the elements to come, in order |
| JsonWriterClasses.StyledWriter.IsMultilineArray | RevSDK/RevSDK/libs/json/jsoncpp.cpp:4381-4407 | the decision, and the buffer it leaves behind: empty, or the texts of all elements |
| JsonWriterClasses.StyledWriter.FillBuffer | RevSDK/RevSDK/libs/json/jsoncpp.cpp:4393-4405 | one text per index, holes included, which is the size the writer asserts, and the line length they add up to |
| JsonWriterClasses.LeafTextsLength | RevSDK/RevSDK/libs/json/jsoncpp.cpp:4367-4376 | the buffer holds as many texts as the array has indices (the assertion in the source) |
| JsonEndToEnd.WriteFastAndParse | RevSDK/RevSDK/libs/json/jsoncpp.cpp:290-330 | the two objects run one after the other: thrown exactly on nesting above the limit, else accepted with the normal form |
| JsonEndToEnd.WriteStyledAndParse | RevSDK/RevSDK/libs/json/jsoncpp.cpp:4268-4277 | the same through the styled writer, with the exact condition on the names |
| JsonEndToEnd.BuildArray | RevSDK/RevSDK/Utils/JSONUtils.cpp:62-72 | appending record by record builds the array of those records without holes |
| JsonEndToEnd.JsonDataFromDataVector | RevSDK/RevSDK/Utils/JSONUtils.cpp:62-72 | the text made of a vector of records is the styled text of the array of those records |
| JsonEndToEnd.BufferReadsBack | RevSDK/RevSDK/Utils/JSONUtils.cpp:33-39 | the buffer of a report, parsed again, is the list of its records, whatever bytes they hold |
| JsonCanonical.ParseIsCanonical | RevSDK/RevSDK/libs/json/jsoncpp.cpp:290-330 | every accepted document yields a tree with sorted names, gap-free arrays, integers in range and tagged by size, and a nesting of at most 1000 |
| JsonCanonical.RereadsItself | RevSDK/RevSDK/libs/json/jsoncpp.cpp:4200-4206 | whatever was accepted, without reals, can be written by the compact writer and is accepted again as the same value: parse after write after parse is parse |
| JsonCanonical.StyledRereadsItself | RevSDK/RevSDK/libs/json/jsoncpp.cpp:4268-4277 | through the styled writer the document is accepted again too, as the same value if and only if no name holds a NUL |
| JsonSlices.CutValue | RevSDK/RevSDK/libs/json/jsoncpp.cpp:332-414 | a successful read does not depend on what follows: cut the document anywhere behind it, start from any value at any smaller depth, and the result is the same |
| JsonSlices.ParseIsFaithful | RevSDK/RevSDK/libs/json/jsoncpp.cpp:349-393 | after a successful parse every node's offsets delimit a slice that begins with the node's token and, parsed alone, is used up and gives an equal value; children lie strictly inside their parent; siblings are disjoint |
| JsonSlices.ReadIsFaithful | RevSDK/RevSDK/libs/json/jsoncpp.cpp:349-414 | the same for a read that starts anywhere in the document |
| JsonDuplicates.LastDuplicateWins | RevSDK/RevSDK/libs/json/jsoncpp.cpp:631-685 | when a document is accepted as an object, its member of any name is the last one of that name in the document, and a name that does not occur is no member; the members of the document are a function of its text alone |
| JsonDuplicates.ReadKeepsLast | RevSDK/RevSDK/libs/json/jsoncpp.cpp:631-685 | the same for the member loop from any members read so far: of those to come the last of a name is kept, a name that does not come keeps its value, and the order of the map is kept |
| JsonDuplicates.ReadIgnoresStart | RevSDK/RevSDK/libs/json/jsoncpp.cpp:332-414 | an accepted value, offsets included, does not depend on what the node held before, such as the value of an earlier member of the same name |
| Refcount.LockCounter.Increment | RevSDK/RevSDK/quicrepack/boringssl/crypto/refcount_lock.c:29-35 | one step of the atomic specification, saturating at 2^32-1 |
| Refcount.LockCounter.DecAndTestZero | RevSDK/RevSDK/quicrepack/boringssl/crypto/refcount_lock.c:37-51 | one step of the atomic specification: abort at zero, no change when saturated, true exactly when zero is reached |
| Refcount.CommitIsLockStep | RevSDK/RevSDK/quicrepack/boringssl/crypto/refcount_c11.c:37-65 | a step of one thread either leaves the count alone or is one whole operation of the lock version with its return value |
| Refcount.RefinesLock | RevSDK/RevSDK/quicrepack/boringssl/crypto/refcount_c11.c:37-65 | in every interleaving of any number of threads, spurious failures included, the operations in commit order are a run of the lock version with the same return values and the same final count |
| Refcount.CompletedOnce | RevSDK/RevSDK/quicrepack/boringssl/crypto/refcount_c11.c:37-65 | each completed call commits exactly once, between its call and its return, and returns what that commit decided |
| Refcount.CommitIsCalledOnce | RevSDK/RevSDK/quicrepack/boringssl/crypto/refcount_c11.c:37-65 | nothing takes effect that was not called, and no call twice: every commit of a run, answered or not, belongs to a call of its thread that was not answered in between, and is the first commit since that call |
| Refcount.RealTimeOrder | RevSDK/RevSDK/quicrepack/boringssl/crypto/refcount_c11.c:37-65 | a call that returned before another was made comes before it in the commit order, whether the later one returns, is pending or aborts: with the three lemmas above, linearizability |
| Refcount.SaturationIsFinal | RevSDK/RevSDK/quicrepack/boringssl/crypto/refcount_c11.c:41-57 | once at the maximum, the count stays there and no later decrement returns true |
| Refcount.OwnershipIsSafe | RevSDK/RevSDK/quicrepack/boringssl/crypto/refcount_c11.c:37-65 | where threads touch the counter only while holding a reference: an unsaturated count is the number of references, abort is never reached, only the last decrement can return true, and it does exactly when the count is zero |
| Refcount.OwnedRunsAreRuns | RevSDK/RevSDK/quicrepack/boringssl/crypto/refcount_c11.c:37-65 | leaving out the hand-overs of references, an owned run is a run with the same final state and the same results, so that the lemmas above hold of it |
| Refcount.ReleasedOnce | RevSDK/RevSDK/quicrepack/boringssl/crypto/refcount_c11.c:49-65 | of all the calls that return in an owned run at most one returns true |
| Dependencies.DependencyTree.GetDependencies | RevSDK/RevSDK/quicrepack/getdep.py:21-69 | ends on cyclic includes too; the keys are exactly the files reachable past the exclusions, each mapped to its edges; `wherefrom` leads back along a shortest path; the used excludes are exactly those met; a missing file is reported only if reachable |
| Dependencies.DependencyTree.FollowAll | RevSDK/RevSDK/quicrepack/getdep.py:51-62 | following the edges of one file keeps the breadth-first invariant |
| Dependencies.SearchAnswers | RevSDK/RevSDK/quicrepack/getdep.py:21-69 | an empty queue means reachability and shortest paths both hold |
| Dependencies.TrailIsUnique | RevSDK/RevSDK/quicrepack/getdep.py:43-49 | `wherefrom` determines a single way back from each file |
| Dependencies.EdgesAre | RevSDK/RevSDK/quicrepack/getdep.py:51-62 | a header stem.h leads to stem.cc and stem.mm, in this order and where they exist, and then to its includes; any other file to its includes |
| Dependencies.SiblingsFollow | RevSDK/RevSDK/quicrepack/getdep.py:51-57 | with a header in the answer come its sources that exist and are not excluded |
| Dependencies.CutIsDomination | RevSDK/RevSDK/quicrepack/getdep.py:80-88 | a file stays reachable without a header and its .cc sibling if and only if some path avoids both |
| Dependencies.DifferenceIsCritical | RevSDK/RevSDK/quicrepack/getdep.py:86-88 | the node difference is the size of the dominated set, and the edge difference its outgoing edges |
| Dependencies.DependencyTree.CountEdges | RevSDK/RevSDK/quicrepack/getdep.py:73-74 | the sum of list lengths is the sum of out-degrees over the reached files |
| Dependencies.DependencyTree.CriticalNode | RevSDK/RevSDK/quicrepack/getdep.py:71-93 | one result for every reachable header and no other, each with exactly the files that all paths lead through that header or its sibling to; node differences never decrease along the list, edge differences never among equal ones, and names ascend after that; the excludes end as the originals plus one header's pair when there was a header, as in the source |
| Dependencies.SortedRows | RevSDK/RevSDK/quicrepack/getdep.py:90 | sorting orders the result tuples strictly and keeps them all |
| IpAddress.ChooseIPv6ContractionRange | RevSDK/RevSDK/quicrepack/custom/stubs.cc:72-101 | the range is the leftmost longest run of at least two zero groups, unset exactly if there is none |
| IpAddress.AppendIPv6Address | RevSDK/RevSDK/quicrepack/custom/stubs.cc:116-150 | the text is the colon form with that run contracted (section 4 of RFC 5952 without its mixed notation) |
| IpAddress.AppendIPv4Address | RevSDK/RevSDK/quicrepack/custom/stubs.cc:103-114 | the dotted decimal form |
| IpAddress.Text4IsRead | RevSDK/RevSDK/quicrepack/custom/stubs.cc:103-114 | a reader for four decimals below 256 without leading zeros, between dots, recovers the four bytes in order |
| IpAddress.GroupText | RevSDK/RevSDK/quicrepack/custom/stubs.cc:139-143 | a group is written in lowercase hex without leading zeros, in one to four digits, with its own value |
| IpAddress.TextIsRead | RevSDK/RevSDK/quicrepack/custom/stubs.cc:116-150 | a reader for section 2.2 of RFC 4291 recovers the eight groups, whichever zero run was contracted |
| IpAddress.Text6IsRead | RevSDK/RevSDK/quicrepack/custom/stubs.cc:116-150 | in particular from the text that is printed |
| IpAddress.AddressIsRead | RevSDK/RevSDK/quicrepack/custom/stubs.cc:154-168 | every printed text of either family is read back byte for byte |
| IpAddress.IPAddressToString | RevSDK/RevSDK/quicrepack/custom/stubs.cc:154-168 | the text of 4 or 16 bytes, which an independent reader takes back to exactly these bytes, and a failed CHECK exactly on other lengths |
| IpAddress.AddressTextInjective | RevSDK/RevSDK/quicrepack/custom/stubs.cc:154-168 | different addresses, of either family, never print alike |
| IpAddress.IPAddressToStringWithPort | RevSDK/RevSDK/quicrepack/custom/stubs.cc:170-180 | a reader for "text:port" and "[text]:port" recovers the address and the port from what is printed |
| HostName.IsCanonicalizedHostCompliant | RevSDK/RevSDK/quicrepack/custom/net_util.cc:135-166 | accepts exactly the grammar of components in the header comment: dot-separated, last one starting with a letter or digit, optional final dot |
| HostName.AcceptsPrintedIPv4 | RevSDK/RevSDK/quicrepack/custom/net_util.h:133-143 | the claim "is not an IP address" in the comment is not checked: every printed IPv4 address is accepted, no printed IPv6 address is |
| HostName.MeetsItsComment | RevSDK/RevSDK/quicrepack/custom/net_util.h:133-143 | over all hosts, the check answers what the comment promises, compliant and no IP address, if and only if the host is not the text of an IPv4 address |
| Stats.RequestStatsHandler.CreateTransaction | RevSDK/RevSDK/Stats/RequestStatsHandler.cpp:39-69 | takes the first records in order, between one and the requested number of them, under the next id |
| Stats.RequestStatsHandler.RequestsData | RevSDK/RevSDK/Stats/RequestStatsHandler.cpp:71-97 | the new state and the handle: the text of the new batch, with callbacks for its id, or the text of no records without callbacks when nothing was pending |
| Stats.RequestStatsHandler.RestoreTransaction | RevSDK/RevSDK/Stats/RequestStatsHandler.cpp:99-113 | the loop moves the one batch with this id back behind the pending records |
| Stats.RequestStatsHandler.DeleteTransaction | RevSDK/RevSDK/Stats/RequestStatsHandler.cpp:115-126 | the loop drops the one batch with this id and rewrites the store |
| Stats.RunsBalance | RevSDK/RevSDK/Stats/RequestStatsHandler.cpp:27-141 | over every sequence of events, records loaded or added are, as a multiset, those pending, in flight, confirmed and discarded; ids in flight are distinct and batches non-empty |
| Stats.CallbackOnce | RevSDK/RevSDK/Stats/RequestStatsHandler.cpp:88-126 | after one callback for an id, no later callback for it ever changes the memory |
| Stats.QueueLaw | RevSDK/RevSDK/Stats/RequestStatsHandler.cpp:27-141 | first in, first out over every run: the records that came to wait since the last delete-all, each failed batch when its failure came, are in order those sent since and then those pending; in flight are exactly the batches not called back; the store holds, in order, what was pending at the last success and what was added since |
| Stats.DurableExactly | RevSDK/RevSDK/Stats/RequestStatsHandler.cpp:115-141 | whether the store is pending plus in flight after an event, told from the state before: a success or a delete-all makes it so if and only if nothing but the batch it confirms is in flight, and any other event leaves it as it was; a success for an unknown id loses even a single batch |
| Stats.StoreIsComplete | RevSDK/RevSDK/Stats/RequestStatsHandler.cpp:27-141 | the store equals pending plus in flight after every event of a run if and only if every success and delete-all found nothing in flight but the batch it confirms |
| Stats.RestartRecovers | RevSDK/RevSDK/Stats/RequestStatsHandler.cpp:27-30 | a restart from the store recovers every record neither confirmed nor discarded if and only if the last success or delete-all found nothing in flight but the batch it confirms |
| Stats.TwoInFlightLoseTheStore | RevSDK/RevSDK/Stats/RequestStatsHandler.cpp:115-135 | with two batches in flight the success of the first erases the second from the store: a concrete run |
| Stats.BatchesPartition | RevSDK/RevSDK/Model/Model.cpp:275-343 | batches of at most k records, all full but the last, concatenate to the pending sequence, and there are ceil(n/k) of them |
| Stats.ReportStats | RevSDK/RevSDK/Model/Model.cpp:275-343 | the draining loop terminates with nothing pending, sends the texts of exactly these batches in order under consecutive ids, leaves the store alone, and sends one report of no records if nothing was pending; the text is never empty, which the source asserts |
| Stats.BufferIsRead | RevSDK/RevSDK/Stats/RequestStatsHandler.cpp:71-97 | the text of a report parses back to exactly the records of its batch |
| QuicStream.QUICDataStream.ShouldAddIncomingData | RevSDK/RevSDK/Connection/QUICDataStream.cpp:133-156 | before the response data is cached, after it the cache is flushed first; the answer is always false |
| QuicStream.QUICDataStream.OnVisitorSentClose | RevSDK/RevSDK/Connection/QUICDataStream.cpp:80-93 | a close announces the response if needed, flushes the cache and completes |
| QuicStream.QUICDataStream.Tick | RevSDK/RevSDK/Connection/QUICDataStream.cpp:95-117 | the timer starts at the first update and fails the stream above the limit, with the unsigned wrap-around of the age |
| QuicStream.OrderedAndLossless | RevSDK/RevSDK/Connection/QUICDataStream.cpp:42-156 | over every run with a delegate, delivered bytes followed by cached bytes are the bytes that arrived, in order; no data precedes the response; at most one failure is reported and no completion follows it |
| QuicStream.CompleteAtClose | RevSDK/RevSDK/Connection/QUICDataStream.cpp:80-93 | a close of a stream that has not failed leaves nothing cached: everything that arrived has been delivered when completion is reported |
| QuicStream.AnnouncesExactly | RevSDK/RevSDK/Connection/QUICDataStream.cpp:54-93 | the delegate gets one response for every header event before any failure and one for a close that finds none, and one completion for every close before any failure |
| QuicStream.DeliversPromptly | RevSDK/RevSDK/Connection/QUICDataStream.cpp:54-62 | once headers came with no failure reported before, the response stays announced and every later piece of data leaves the cache empty with all that arrived delivered |
| QuicStream.SocketErrorIsReported | RevSDK/RevSDK/Connection/QUICDataStream.cpp:119-131 | a socket error of a stream that has reported no failure is reported at once, and as no timeout |
| QuicStream.PieceByPiece | RevSDK/RevSDK/Connection/QUICDataStream.cpp:133-156 | the pieces delivered and then those cached are the non-empty pieces that came, one for one |
| QuicStream.WaitsForADelegate | RevSDK/RevSDK/Connection/QUICDataStream.cpp:42-156 | a stream without a delegate calls nobody and keeps every piece |
| QuicStream.TimesOutExactly | RevSDK/RevSDK/Connection/QUICDataStream.cpp:95-117 | with a monotone clock, an update fails the stream, and reports that as a timeout, if and only if some earlier update lies more than 20 seconds back with no header, frame or close event since |
| QuicStream.ClockStepsBack | RevSDK/RevSDK/Connection/QUICDataStream.cpp:106-108 | a clock that steps back fails the stream too, unless the unsigned age wraps to a small number |
| QuicStream.TimerStart | RevSDK/RevSDK/Connection/QUICDataStream.cpp:95-104 | a running timer was started by an update after which there was no activity |

## Left out

- JsonOrder.StrictTotalOrder: reals are mathematical, so NaN and the infinities are outside.
- JsonReader.Reader.DecodeUnicode: does not model the extra location kept with an error.
- JsonReader.Reader.DecodeStringToken: does not model the extra location kept with an error.
- JsonReader.Reader.ReadValue: covers the default features; comments are skipped, not collected, and
  nulls may not be dropped.
- JsonReader.Reader.ReadObject: covers the default features, without numeric keys.
- JsonReader.Reader.Parse: covers the default features, without the check of a strict root and
  without the collection of comments.
- JsonGrammar.AcceptsTheGrammar: speaks of documents without comments; with comments the grammar's
  texts are accepted too, but not only they.
- JsonErrors.BracketIsMissing: speaks of the first element; behind later ones the same branch runs.
- JsonLexemes.ReadLexemes: leaves out reals, whose conversion is foreign code, and values holding a
  null string pointer, which have no text.
- JsonWriters.FastReads: leaves out reals, null string pointers and the option that drops null
  placeholders, whose output the library itself calls invalid JSON.
- JsonWriters.FastRoundTrip: leaves out the same.
- JsonStyled.StyledSameTokens: leaves out the same, and comments.
- JsonStyled.StyledWrites: leaves out reals, null string pointers and comments.
- JsonStyled.StyledRoundTrip: leaves out the same.
- JsonWriterClasses.StyledWriter.Write: writes no comments.
- JsonWriterClasses.StyledWriter.WriteArrayValue: writes no comments.
- JsonWriterClasses.StyledWriter.WriteLines: writes no comments.
- JsonWriterClasses.StyledWriter.IsMultilineArray: leaves out the test for comments.
- JsonWriterClasses.StyledWriter.FillBuffer: leaves out the test for comments.
- JsonEndToEnd.WriteFastAndParse: leaves out reals, null string pointers and dropped nulls.
- JsonEndToEnd.WriteStyledAndParse: leaves out reals and null string pointers.
- JsonCanonical.RereadsItself: leaves out documents with reals.
- JsonCanonical.StyledRereadsItself: leaves out documents with reals.
- JsonSlices.ParseIsFaithful: speaks of successful parses only; the partial tree after an error or
  after the stack-limit exception is not described.
- HostName.MeetsItsComment: an IP address is the text that the printers give, not every spelling of
  an address.
- QuicStream.TimesOutExactly: assumes a monotone clock; `Tick` itself models any clock below 2^64.
- Sizes and indices are unbounded: the 32-bit size of arrays and the 30-bit length of keys are not
  modelled.
- Aliasing of nodes, string ownership and prefixed strings in the JSON library.
- Comments in writers, the stream writers, the second reader with its settings, paths, iterators,
  resizing and removal.
- `Dependencies` takes a map from files to edges in place of the file system and the line scan for
  includes; the debug printing and the warning about unused excludes are left out. `wherefrom` is
  returned, although the source keeps it local, and headers are examined in any order.
- `Stats` treats the store as a sequence of records and each locked region as one step; sending,
  notifications, usage tracking and logging are left out.
- `QuicStream` takes callbacks and updates as events; the base stream, sessions and sockets are left
  out.
- `IpAddress` prints digits directly where the source goes through a character buffer.
- Configuration service, protocol selection, failure monitoring, CPU probing and the Objective-C
  bridges.
