# Verified models of the streaming server's core utilities

This project models six components of the repository in Dafny and proves what they promise.

* **JSON** (`json11.cpp`, `json11.hpp`). `JsonValue` and `JsonOrder` hold the values and their order, `JsonCursor`,
  `JsonGaps`, `JsonStrings`, `JsonNumbers` and `JsonParse` the parser as functions of text and state, `JsonGrammar` the
  syntax trees of RFC 8259 with everything that can be written between tokens. `JsonAccept` and `JsonSound` prove that the
  parser accepts exactly those trees; `JsonText`, `JsonDump`, `JsonRoundTrip`, `JsonInjective`, `JsonMulti`, `JsonMembers`,
  `JsonFailure`, `JsonBroken`, `JsonLeaks` and `JsonErrors` draw the consequences. `JsonSpelling`, `JsonDumpSpelling`,
  `JsonEscapes`, `JsonDecimal` and `JsonKinds` say the same in characters, digits and kinds (`Ascii`), without the
  parser's constants and tables: what each spelling is read as, and what is written for each value. `JsonParser` is the
  source's own form: a class whose methods move `i`, set `failed` and loop, each proved to compute its function, and the
  appending `dump` loops. `Utf8` and `Bits` model `encode_utf8` and the shift and mask operators.
* **Reader/writer lock** (`ReadWriteLock.cpp`). `ReadWriteLock` is a transition system for any number of threads; the
  steps are the individual mutex, counter and condition-variable operations of the four functions. `ReadWriteLockCalls`
  is the class itself, each function proved, with other threads moving between its statements, to be the run of steps
  that its statements stand for.
* **Log queue** (`log4z.cpp`, `log4z.h`). `LogState` gives each operation of `LogerManager` as one atomic step,
  `LogSafety`, `LogOutcome`, `LogHotChange` and `LogDrain` the properties of all runs, `LogEffects` what each operation
  does at once, `LogerManagerClass` the class itself with its array of records, map of ids, queue and counters.
* **Bit reader** (`BitReader.cpp`), **Base64** (`base64.cpp`), **list** (`Template.h`): the modules `BitReading`, `Base64`
  and `Lists`, each a class or methods in the source's form and the properties of the functions they compute.

Main results: `JsonText.ParseIsTheGrammar` with `JsonSpelling.SpelledIsParsed`, `JsonRoundTrip.RoundTrip` and
`JsonInjective.DumpsAlikeIff`, `JsonStrings.ScanRefinesTwoPasses` with `JsonEscapes.WrittenIsRead`,
`JsonDecimal.NumberMeans`, `JsonErrors.ErrorStands`, `JsonOrder.Trichotomy` with `JsonKinds.KindsDecide`,
`JsonLeaks.LeaksIff`, `ReadWriteLock.StepsAreLegal`, `ReadWriteLock.Progress` with `ReadWriteLock.BoundedRun`,
`LogSafety.NoRetroactiveDrop` with `LogOutcome.OutcomeIsDeserved`, `LogDrain.SafeIff`, `LogSafety.NothingIsLost`,
`LogHotChange.HotChangesConverge`, `BitReading.StreamRoundTrip`, `Base64.EncodeDecode`, `Lists.List.RemoveDupes`.

Where the code and its own words disagree, the model follows the code:

* `json11.hpp:151` says a failed parse returns `Json()`. A malformed root string that runs out returns `""` instead, and
  COMMENTS mode can return a value or an array or object whose closing was never accepted (`JsonLeaks.LeaksIff`).
* `json11.cpp:401-404` rejects a block comment that ends the input although it is closed.
* `log4z.cpp:1592-1604` appends a slash to a copy of the path and then queues the path without it.
* `BitReader.cpp:54` compares with `>`, so a cursor exactly at the end passes the guard; `ReadBit` asks callers to stay clear of it.
* `ReadWriteLock.cpp:36` notifies although nobody can be asleep there (`ReadWriteLock.WriterNotifiesNobody`).

## Model

| member | source | states |
|---|---|---|
| Utf8.EncodeArithmetic | json11.cpp:446-465 | the shifts and masks of the encoder compute the base-64 digits of the code point, marker bits added |
| Utf8.DecodeEncode | json11.cpp:446-465 | a decoder written from section 3 of RFC 3629 inverts the encoder on every scalar value, whatever follows, and rejects what it writes for every surrogate |
| Utf8.PairIsAstral | json11.cpp:523-529 | a surrogate pair joins to a code point in 10000..10FFFF (hex) from which section 2.2 of RFC 2781 recovers both units |
| JsonOrder.OperatorsAgree | json11.cpp:153-178 | operator< and operator== are the negative and the zero half of one three-way comparison, on all values without NaN, mixed int/double, arrays and objects included |
| JsonOrder.CompareTransitive | json11.cpp:293-305 | the three-way comparison is transitive, with equality exactly when both steps are equalities |
| JsonOrder.Trichotomy | json11.cpp:293-305 | exactly one of a<b, a==b, b<a holds for values without NaN, and == is symmetric |
| JsonOrder.LessIsTransitive | json11.cpp:300-305 | < is transitive and == may replace either side of it |
| JsonOrder.DerivedOperators | json11.hpp:171-176 | <=, >, >= and != mean what their names say relative to < and == |
| JsonOrder.ReflexiveIffNanFree | json11.cpp:153-178 | a==a holds exactly for values with no NaN anywhere inside, so the condition on the order cannot be dropped |
| JsonOrder.NanBreaksTheOrder | json11.cpp:164-178 | a NaN is neither below, equal to nor above any number |
| JsonKinds.KindsDecide | json11.cpp:293-305 | values of different kinds are never equal, and are ordered null, number, bool, string, array, object |
| JsonKinds.SmallKinds | json11.cpp:153-178 | false is below true, and numbers compare by what they denote, int against double and infinities included |
| JsonKinds.NotLessThanItself | json11.cpp:293-305 | < is irreflexive on every value, NaNs or not |
| JsonKinds.StringsByFirstDifference | json11.cpp:156-158 | strings are ordered by their first different byte, a proper prefix below its extensions |
| JsonKinds.ArraysByFirstDifference | json11.cpp:156-158 | arrays are ordered by their first different element, a proper prefix below its extensions |
| JsonKinds.ObjectsByFirstDifference | json11.cpp:156-158 | objects are ordered by their first different entry, its key before its value |
| JsonGaps.Comment | json11.cpp:372-411 | how far a comment may move the cursor, that a found comment leaves a character unread, and that nothing found and nothing failed means nothing was there |
| JsonGaps.Garbage | json11.cpp:417-428 | after a successful skip the next character starts a token |
| JsonGaps.NextToken | json11.cpp:434-440 | the cursor stays inside the text; a token character was consumed unless the text ended |
| JsonGaps.GapsSkipped | json11.cpp:417-428 | any run of whitespace and, in COMMENTS mode, closed comments before a token is skipped exactly, provided the text does not end in a block comment |
| JsonGaps.FinalBlockRejected | json11.cpp:401-404 | a closed block comment that ends the text is reported as unexpected end of input |
| JsonGaps.AcceptedGarbage | json11.cpp:417-428 | the converse: whatever is skipped without failure is such a run |
| JsonStrings.Scan | json11.cpp:471-558 | the scanner only moves forward inside the text, and succeeds only just past a closing quote |
| JsonStrings.ScanRefinesTwoPasses | json11.cpp:471-558 | from every intermediate state the scanner that holds back one escaped unit gives the result, error and stopping position of the two-pass reading: tokenise, pair surrogates left to right, encode |
| JsonStrings.TokensRead | json11.cpp:471-558 | splitting a written token list gives those tokens back |
| JsonStrings.TokensWritten | json11.cpp:471-558 | a text that splits into tokens is exactly the text of those tokens and a closing quote |
| JsonStrings.StringParsed | json11.cpp:471-558 | parse_string accepts exactly the texts of valid token lists closed by a quote and returns their two-pass value; otherwise it returns the empty string with the tokeniser's error and position |
| JsonEscapes.FourHexReads | json11.cpp:500-517 | the four hex digits of any code unit, each in either case, read back as the unit |
| JsonEscapes.WrittenIsRead | json11.cpp:500-554 | a string spelled with any mixture of raw bytes, one-letter escapes and hex escapes is read as what was meant |
| JsonEscapes.OneEscapeIsRead | json11.cpp:500-537 | a hex escape alone is read as the UTF-8 of its unit |
| JsonEscapes.TwoEscapesAreRead | json11.cpp:519-537 | two hex escapes are one code point exactly when they are a high and a low surrogate, and which one |
| JsonEscapes.OneLetterIsRead | json11.cpp:539-554 | each one-letter escape, the slash included, is read as its character |
| JsonNumbers.ParseNumber | json11.cpp:564-613 | progress inside the text on success, and null on failure |
| JsonNumbers.NumberRead | json11.cpp:564-613 | a number of the grammar of section 6 of RFC 8259, not continued by the next character, is read whole and given its decimal value: an int when short and integral, otherwise a double, which keeps the sign of a zero |
| JsonNumbers.NumberWritten | json11.cpp:564-613 | the converse: whenever parse_number succeeds it has read such a number, and returned its value |
| JsonDecimal.PointShift | json11.cpp:612-612 | the value of a number, shifted past the point by the length of its fraction, is its digits read as one integer |
| JsonDecimal.ExponentShift | json11.cpp:612-612 | an exponent multiplies by that power of ten, or divides when its sign is a minus |
| JsonDecimal.NumberMeans | json11.cpp:564-613 | what parse_number returns on a text: the integer its digits spell, with the places and zeros that fraction and exponent give; int exactly for at most nine characters without either; negative zero exactly for a zero with a minus sign |
| JsonParse.Expect | json11.cpp:620-629 | the step back stays inside the text; failure gives null and keeps the first error |
| JsonParse.ParseJson | json11.cpp:635-719 | totality on every input, mode, depth and state, failed ones included: the cursor stays within 0..size and moves forward on success, failed never resets, err keeps the first error |
| JsonParse.Parse | json11.cpp:722-733 | a parse that does not fail has consumed the whole text and left the caller's error string alone |
| JsonParse.ParseMulti | json11.cpp:735-747 | the same for parse_multi, which terminates because a value that does not fail consumes a character |
| JsonErrors.WholePartRefused | json11.cpp:571-583 | a leading zero and a missing integer part, each with its error and position |
| JsonErrors.FractionRefused | json11.cpp:589-596 | a point without a digit behind it, after any whole number |
| JsonErrors.ExponentRefused | json11.cpp:599-610 | an exponent without digits, signed or not, after any whole number or fraction |
| JsonErrors.StringFailsIff | json11.cpp:471-558 | parse_string fails with an error at a position exactly when tokens of a string stand there up to a place where that error arises: end of text, control character, bad escape letter, bad hex escape |
| JsonErrors.GapsRefused | json11.cpp:372-411 | a comment that breaks off: malformed when its second character is wrong, otherwise without an end |
| JsonErrors.NoValueLeft | json11.cpp:434-440 | only gaps left where a value is expected: unexpected end of input |
| JsonErrors.NoValueStarts | json11.cpp:649-718 | a character that starts no value, and a misspelled true, false or null |
| JsonErrors.NumberOrString | json11.cpp:646-659 | a digit or minus sign hands over to parse_number from there, a quote to parse_string from behind it |
| JsonErrors.ArrayNeedsComma | json11.cpp:694-715 | anything but a comma or closing bracket after any element of an array |
| JsonErrors.ObjectNeedsKey | json11.cpp:661-670 | anything but a quote where a key should start, after any number of members |
| JsonErrors.KeyNeedsColon | json11.cpp:672-677 | anything but a colon after any key of an object |
| JsonErrors.ObjectNeedsComma | json11.cpp:679-690 | anything but a comma or closing brace after any member |
| JsonErrors.ErrorStands | json11.cpp:635-719 | an error where a value is expected, behind any complete elements, members and keys at any nesting, is the error of the whole |
| JsonErrors.FirstErrorIsReported | json11.cpp:722-733 | so Json::parse reports the first error, and keeps it |
| JsonErrors.TrailingRefused | json11.cpp:729-730 | a complete text with a further character behind it fails with that character at its position |
| JsonAccept.TreeRead | json11.cpp:635-719 | completeness at any position, depth and nesting limit: gaps and the text of a syntax tree are read to the tree's value with the cursor at the exact end when the tree fits under the limit, and the parse fails when it does not |
| JsonAccept.ElemsRead | json11.cpp:694-715 | the array loop, from any partly read array to whatever state its closing bracket leaves, a failed one included |
| JsonAccept.MembersRead | json11.cpp:661-692 | the object loop, from any partly read object to whatever state its closing brace leaves |
| JsonSound.TreeFound | json11.cpp:635-719 | soundness: whenever parse_json succeeds, a syntax tree within the nesting limit stands at the cursor, its text is exactly what was consumed and its value is what was returned |
| JsonSound.ElemsFound | json11.cpp:694-715 | an array loop that succeeds, or fails with a value to return, has read an element list of the grammar up to the closing bracket |
| JsonSound.MembersFound | json11.cpp:661-692 | the same for the object loop |
| JsonText.ParseIsTheGrammar | json11.cpp:722-733 | Json::parse accepts exactly the texts of the grammar nested at most 200 deep, and returns the tree's value whichever tree of the text is taken |
| JsonText.TextParsed | json11.cpp:722-733 | a text within the limit is accepted with its value and no error; one nested deeper is rejected |
| JsonText.AcceptedIsText | json11.cpp:722-733 | the tree behind an accepted text |
| JsonText.LayoutIsIrrelevant | json11.cpp:417-428 | a text with any whitespace or comments between its tokens parses to what the same text without any of them parses to, in either mode |
| JsonText.FinalBlockIsRejected | json11.cpp:401-404 | in COMMENTS mode any text that ends in a closed block comment fails, and yet the parsed value is returned |
| JsonSpelling.ClassesSpelled | json11.cpp:363-366 | the character classes of RFC 8259, by their characters |
| JsonSpelling.ValidGapSpelled | json11.cpp:363-411 | whitespace and comments of the grammar, by their characters |
| JsonSpelling.ValidNumSpelled | json11.cpp:564-613 | the numbers of the grammar are those of section 6 of RFC 8259 |
| JsonSpelling.ValidTokSpelled | json11.cpp:471-558 | the string tokens of the grammar are those of section 7 of RFC 8259 |
| JsonSpelling.PrintIsSpelled | json11.cpp:635-719 | the text of a tree is the one the productions of RFC 8259 give, brackets, commas, colons, quotes and names spelled out |
| JsonSpelling.SpelledIsParsed | json11.cpp:722-733 | Json::parse accepts a text so spelled, with its value, exactly up to a nesting of 200 |
| JsonSpelling.NamesAreParsed | json11.cpp:649-653 | true, false and null, with any gaps around them, are parsed to those values |
| JsonSpelling.OneElement | json11.cpp:694-715 | a bracketed text with any gaps is the array of its value |
| JsonSpelling.TwoElements | json11.cpp:694-715 | two texts with a comma between them are the array of the two values in order |
| JsonSpelling.OneMember | json11.cpp:661-692 | a quoted key, a colon and a text in braces are the object with that entry |
| JsonMembers.InsertKeepsSorted | json11.cpp:679-679 | inserting into a map in key order keeps it in key order |
| JsonMembers.LookupInsert | json11.cpp:679-679 | the assignment through operator[] updates its own key and no other |
| JsonMembers.LastMemberWins | json11.cpp:661-692 | an object text stands for the map in which, for each key, the last member with that key counts |
| JsonMembers.ShortTokensFit | json11.cpp:583-586 | the digit limit of the integer path keeps every int within 32 bits |
| JsonMembers.ParsedIsStorable | json11.cpp:722-733 | every accepted text gives strictly ordered keys and 32-bit ints at every depth |
| JsonDump.IntTextIsToken | json11.cpp:48-62 | a printed integer is a number of the grammar and reads back as that integer |
| JsonDump.EscapeRoundTrip | json11.cpp:68-103 | for every byte string the escaped text is a valid token list whose two-pass value is the same bytes: control characters, NUL, quotes and the U+2028 and U+2029 sequences included |
| JsonDumpSpelling.DumpSpelled | json11.cpp:44-133 | what dump writes for each kind: names, quotes, brackets, the separators between items and after keys, null for what is not finite |
| JsonDumpSpelling.DigitsSpell | json11.cpp:58-62 | integers are written in decimal, most significant digit first, behind a minus sign when negative |
| JsonDumpSpelling.EscapeSpelled | json11.cpp:70-101 | what is written for each character of a string |
| JsonDumpSpelling.DumpedStringIsSafe | json11.cpp:68-103 | a dumped string holds no raw control character and no raw U+2028 or U+2029 |
| JsonRoundTrip.DumpIsText | json11.cpp:105-133 | the dump of a value is the text of a syntax tree of the value's nesting height |
| JsonRoundTrip.NulledEqualIff | json11.cpp:48-56 | null in place of every infinity and NaN makes an unequal value exactly when there is one |
| JsonRoundTrip.ReadBack | json11.cpp:105-133 | the value of that tree equals the value printed with null for every infinity and NaN, by Json::operator== |
| JsonRoundTrip.RoundTrip | json11.cpp:635-719 | parsing a dump inside any surrounding text, at any depth, returns the value with null for every infinity and NaN and stops exactly at its end when the nesting fits under the limit, and fails when it does not; what is returned equals the value exactly when all its numbers are finite |
| JsonRoundTrip.ParseDump | json11.cpp:722-733 | the same for Json::parse of a dump, with no error and the limit of 200 |
| JsonRoundTrip.InfinityIsLost | json11.cpp:48-56 | an infinity is printed as null and comes back as null |
| JsonInjective.OneDump | json11.cpp:131-133 | a text cannot begin with two different dumps, since the parser stops at the end of either |
| JsonInjective.DumpsAlikeIff | json11.cpp:131-133 | two values have the same dump exactly when Json::operator== holds between them, null standing for infinities and NaN, and their zeros have the same signs, at any nesting |
| JsonInjective.DumpIsInjective | json11.cpp:131-133 | with finite numbers: the same dump means equal values, and equal values have the same dump exactly when their zeros have the same signs |
| JsonInjective.ZerosPrintApart | json11.cpp:48-56 | 0.0 and -0.0 are equal and print as 0 and -0 |
| JsonMulti.DocsParsed | json11.cpp:735-747 | the parse_multi loop from any state, on any remaining run of texts |
| JsonMulti.MultiParsed | json11.cpp:735-747 | parse_multi returns exactly the values of a run of texts, separated by gaps only where a number would run on |
| JsonMulti.MultiStops | json11.cpp:735-747 | where parse_json fails behind a run of texts, parse_multi returns the values of the run and what the failed call returned, with its error |
| JsonMulti.MultiRoundTrip | json11.cpp:735-747 | parse_multi of whitespace-separated dumps returns the list of values with null for every infinity and NaN, and an equal list exactly when all numbers are finite |
| JsonFailure.FailedValue | json11.cpp:635-719 | in STANDARD mode a failed parse_json returns null, or the empty string where a string was malformed; never a partly built array or object |
| JsonFailure.FailedParse | json11.cpp:722-733 | in STANDARD mode a failed parse returns null, except the empty string for a malformed root string whose scan stops where only whitespace is left |
| JsonFailure.StandardContract | json11.hpp:151-154 | the documented "return Json()" on failure holds in STANDARD mode exactly when the text is not of that kind |
| JsonBroken.RejectedIff | json11.cpp:372-411 | consume_comment rejects exactly a slash before anything but a slash or star, a line comment without newline, a block comment without end, and one whose end is the end of the text; and which character it leaves next |
| JsonBroken.BrokenIff | json11.cpp:417-428 | skipping fails exactly on a run of gaps followed by such a comment |
| JsonBroken.RunsOutIff | json11.cpp:417-428 | skipping reaches the end, in whatever state, exactly when only gaps are left, the last of which may break off there |
| JsonLeaks.LeaksIff | json11.cpp:722-733 | in either mode and on every text, a failed parse returns a given value other than null exactly when the text is of one of three families with that value: a malformed string that runs out, a complete text whose trailing gaps break off at the end, a container whose last gap breaks off and leaves the closing bracket next |
| JsonLeaks.ContractHoldsIff | json11.hpp:151-154 | the documented "return Json()" on failure holds, in either mode, exactly outside the three families |
| JsonFailure.ModesAgree | json11.cpp:417-428 | without a slash in the text the two modes parse alike, failures included |
| JsonFailure.CommentsLeakArray | json11.cpp:694-698 | in COMMENTS mode the text [/] fails and returns an empty array, against json11.hpp |
| JsonParser.Parser.constructor | json11.cpp:722-724 | the initial state |
| JsonParser.Parser.FailWith | json11.cpp:347-357 | keeps the first error only |
| JsonParser.Parser.ConsumeWhitespace | json11.cpp:363-366 | the loop computes SkipWs |
| JsonParser.Parser.ConsumeComment | json11.cpp:372-411 | the method with its two loops computes Comment |
| JsonParser.Parser.ConsumeLine | json11.cpp:379-388 | the inline-comment loop stops at the newline, or fails at the end |
| JsonParser.Parser.ConsumeBlock | json11.cpp:390-405 | the block-comment loop stops past the closing pair, or fails |
| JsonParser.Parser.ConsumeGarbage | json11.cpp:417-428 | the do-while loop computes Garbage |
| JsonParser.Parser.GetNextToken | json11.cpp:434-440 | computes NextToken |
| JsonParser.Parser.HoldUnit | json11.cpp:502-537 | the escape branch: completes a pair with the held-back unit or holds the new unit back, flushing the old one |
| JsonParser.Parser.ReadString | json11.cpp:471-558 | the loop over out and last_escaped_codepoint computes ParseString |
| JsonParser.Parser.ReadNumber | json11.cpp:564-613 | the in-place scan computes ParseNumber |
| JsonParser.Parser.ReadFraction | json11.cpp:583-596 | the scan from the end of the integer part |
| JsonParser.Parser.ReadExponent | json11.cpp:599-612 | the scan from the end of the fraction |
| JsonParser.Parser.Expect | json11.cpp:620-629 | computes Expect |
| JsonParser.Parser.ParseJson | json11.cpp:635-719 | the method, with the loops below, computes ParseJson and terminates on every input |
| JsonParser.Parser.ParseObject | json11.cpp:661-692 | the object loop over data |
| JsonParser.Parser.ParseArray | json11.cpp:694-715 | the array loop over data, with its step back |
| JsonParser.Parse | json11.cpp:722-733 | computes the function Parse on a fresh parser |
| JsonParser.ParseMulti | json11.cpp:735-747 | the loop computes the function ParseMulti |
| JsonParser.DumpString | json11.cpp:68-103 | the loop with its i += 2 appends the escaped text |
| JsonParser.EscapeNext | json11.cpp:70-101 | one round of that loop: what is appended and how far it moves |
| JsonParser.Dump | json11.cpp:131-133 | appends the dump of any printable value |
| JsonParser.DumpArray | json11.cpp:105-115 | the loop with its first flag appends the array's text |
| JsonParser.DumpObject | json11.cpp:117-129 | the same for objects |
| ReadWriteLock.InvKept | ReadWriteLock.cpp:11-39 | every step of every thread keeps the invariant: mutex owners follow from where the threads stand, numReaders_ counts the readers inside, a writer inside means no reader, a sleeping writer will be woken |
| ReadWriteLock.ReachableInv | ReadWriteLock.cpp:11-39 | the invariant holds after any interleaving of any number of threads, spurious wake-ups included |
| ReadWriteLock.Exclusion | ReadWriteLock.cpp:11-39 | at most one writer is active, none together with a reader, and numReaders_ is the number of readers that have entered and not left |
| ReadWriteLock.ViewMoves | ReadWriteLock.cpp:11-39 | a step changes who reads or writes for its own thread only |
| ReadWriteLock.StepsAreLegal | ReadWriteLock.cpp:11-39 | refinement: every step is invisible or a legal move of a simple reader/writer lock (enter when no writer, leave, write when empty, stop writing) |
| ReadWriteLock.CallsInOrder | ReadWriteLock.cpp:11-39 | every thread enters, is inside and leaves in that order: acquireWriter ends only with the thread writing, acquireReader only with it reading |
| ReadWriteLock.OneSleeper | ReadWriteLock.cpp:28-32 | at most one thread sleeps on the condition variable |
| ReadWriteLock.NoRiseWhileSleeping | ReadWriteLock.cpp:11-32 | no step raises numReaders_ while a writer sleeps |
| ReadWriteLock.NoLostWakeup | ReadWriteLock.cpp:19-26 | the last releaseReader wakes the sleeping writer; after its notification nobody sleeps |
| ReadWriteLock.SleepsForAReason | ReadWriteLock.cpp:28-32 | a writer that sleeps while the counter mutex is free has a reader inside to wait for |
| ReadWriteLock.WriterNotifiesNobody | ReadWriteLock.cpp:34-39 | nobody can be asleep while a writer is inside, so the notification in releaseWriter never wakes anyone |
| ReadWriteLock.Progress | ReadWriteLock.cpp:11-39 | no deadlock: whenever some thread is not idle, a step inside a call or a release owed by a reader or writer is possible |
| ReadWriteLock.BoundedRun | ReadWriteLock.cpp:11-39 | no livelock: any interleaving has at most 12 steps per acquire (with its release) plus 3 per spurious wake-up |
| ReadWriteLock.FinishedRun | ReadWriteLock.cpp:11-39 | a run that cannot go on without new calls has completed every call and left the lock as new |
| ReadWriteLock.CanFinish | ReadWriteLock.cpp:11-39 | from every state of the invariant the calls under way can be completed without new callers, within the measure |
| ReadWriteLock.BlockedOnlyByHolders | ReadWriteLock.cpp:11-39 | calls that cannot move wait for a reader or writer that has not released |
| ReadWriteLockCalls.RunSplit | ReadWriteLock.cpp:11-39 | a run in two parts |
| ReadWriteLockCalls.OthersKeep | ReadWriteLock.cpp:11-39 | moves of the other threads leave a thread where it stands, or wake it |
| ReadWriteLockCalls.Lock.AcquireReader | ReadWriteLock.cpp:11-17 | with any moves of other threads before each statement, while it waits for the mutexes included, the statements in order are a run of the transition system, and the caller is a reader inside |
| ReadWriteLockCalls.Lock.ReleaseReader | ReadWriteLock.cpp:19-26 | likewise; the caller is done |
| ReadWriteLockCalls.Lock.NotifyAtZero | ReadWriteLock.cpp:23-26 | its second half: a sleeper is notified exactly when the counter is zero, then the mutex is unlocked |
| ReadWriteLockCalls.Lock.Wait | ReadWriteLock.cpp:31-31 | one round of the wait: the mutex is released, and taken again after a wake-up |
| ReadWriteLockCalls.Lock.AcquireWriter | ReadWriteLock.cpp:28-32 | likewise with the loop of the wait, however often it goes round before the schedule lets the writer in |
| ReadWriteLockCalls.Lock.ReleaseWriter | ReadWriteLock.cpp:34-39 | likewise; notification, then both unlocks |
| LogSafety.RegistryKept | log4z.cpp:1292-1325 | after every operation keys map one-to-one onto the ids 0..lastId below the maximum, and each record carries its key |
| LogSafety.IdsAreStable | log4z.cpp:1292-1325 | over any run lastId never shrinks and a key keeps its id |
| LogSafety.Conserves | log4z.cpp:1362-1887 | every operation keeps: handled messages followed by queued ones are the accepted ones in order, and the counters agree |
| LogSafety.NothingIsLost | log4z.cpp:1780-1866 | in every reachable state handled ++ queued == accepted, pushed - popped is the number of queued messages (line 396), popped == written + filtered + open failures, and once the consumer has exited nothing is left |
| LogSafety.FateWhenAccepted | log4z.cpp:1362-1373 | a message that passes its logger now, with no request for it queued, will pass when its turn comes |
| LogSafety.StaysKept | log4z.cpp:1527-1605 | no operation of any thread spoils the fate of a queued message: immediate effects only enable or lower, the rest queues behind |
| LogSafety.NoRetroactiveDrop | log4z.cpp:1362-1844 | a message accepted while no request for its logger is queued is never filtered in any continuation; once handled it was written or its file failed to open, and it is handled before the consumer exits |
| LogSafety.QueuedDisableDrops | log4z.cpp:1556-1561 | without that condition it can be: behind a queued disable an accepted message is filtered |
| LogDrain.SafeIff | log4z.cpp:1362-1844 | exactly when an accepted message is never filtered in any continuation: when its logger, with the requests queued ahead of it applied, would let it through |
| LogDrain.RenameIsHarmless | log4z.cpp:1579-1591 | behind a queued rename an accepted message is as safe as before |
| LogSafety.PrePushPredicts | log4z.cpp:1350-1361 | prePushLog is true exactly when pushLog accepts |
| LogOutcome.RoundOutcome | log4z.cpp:1780-1844 | one round handles the message at the head with the outcome its logger calls for, and counts it as written exactly when it is |
| LogOutcome.OutcomeIsDeserved | log4z.cpp:1780-1844 | in every run each handled message was handled at some round, and was filtered, written or lost exactly as its logger's record at that moment and the attempt to open its file call for |
| LogOutcome.AcceptedIsWritten | log4z.cpp:1362-1844 | a message accepted while no request for its logger is queued is written, in every run in which the files open, and before the consumer exits |
| LogOutcome.NoFileNoFailure | log4z.cpp:1821-1838 | a passing message whose logger has file output off is always written; an open failure occurs exactly for a passing message with file output on whose open fails |
| LogOutcome.DrainWrites | log4z.cpp:1780-1844 | when the files open and nobody interferes, the n-th queued message is written exactly when its logger, with the requests ahead of it applied, lets it through |
| LogEffects.NewManager | log4z.cpp:1138-1156 | the records and counters of a new manager |
| LogEffects.CreateGivesLoggers | log4z.cpp:1292-1325 | a known key keeps its id, an eleventh logger is refused, a new one gets the next id and an enabled record, the others untouched |
| LogEffects.EnableEffects | log4z.cpp:1556-1561 | enabling takes effect at once, disabling not before its turn |
| LogEffects.LevelEffects | log4z.cpp:1562-1567 | lowering the level takes effect at once, raising it not before its turn |
| LogEffects.RequestsAreQueued | log4z.cpp:1527-1605 | each accepted request is queued last with its kind and argument, and no other setter touches a record |
| LogEffects.UnknownIdsAreRefused | log4z.cpp:1350-1605 | an id outside 0..lastId is refused by every operation, and nothing changes |
| LogEffects.StartAnnounces | log4z.cpp:1753-1771 | start announces the thread and every enabled logger on Main at the alarm level, and a second start is refused |
| LogEffects.StopAndExit | log4z.cpp:1339-1349 | after stop no message is accepted, and at the end of run every logger is off |
| LogHotChange.LastRequestWins | log4z.cpp:1542-1555 | after a queue of requests each attribute has the value of the last request for it, or its old value |
| LogHotChange.OneRequest | log4z.cpp:1542-1555 | a request sets its own attribute and leaves every other alone |
| LogHotChange.StaysConsistent | log4z.cpp:1527-1605 | every operation keeps: the record with its queued requests applied is the record the accepted requests ask for, outfile excepted after a failed open |
| LogHotChange.HotChangesConverge | log4z.cpp:1527-1605 | this holds in every reachable state, for every logger |
| LogHotChange.UpToDate | log4z.cpp:1789-1795 | with no request queued for it a logger's record is what was asked for |
| LogHotChange.AskedByNumbers | log4z.cpp:1556-1577 | enableLogger, setLoggerLevel and setLoggerLimitsize ask for their argument, 0 meaning the largest limit |
| LogHotChange.AskedByOthers | log4z.cpp:1568-1605 | the switch setters ask for their argument; names and paths are accepted exactly when not empty and shorter than the buffer |
| LogHotChange.LimitSizeArrives | log4z.cpp:1573-1577 | an unsigned limit survives its trip through an int |
| LogDrain.DrainFollowsFate | log4z.cpp:1780-1844 | when nobody interferes, the n-th queued message is filtered exactly when its logger, with the requests ahead of it applied, rejects it |
| LogDrain.DrainCatchesUp | log4z.cpp:1780-1844 | after the inner loop every accepted message is handled and every record is as asked for |
| LogerManagerClass.LogerManager.constructor | log4z.cpp:1138-1156 | the initial state, logger Main registered |
| LogerManagerClass.LogerManager.CreateLogger | log4z.cpp:1292-1325 | computes the step CreateLogger on the array of records and the map of ids |
| LogerManagerClass.LogerManager.PrePushLog | log4z.cpp:1350-1361 | computes PrePushLog |
| LogerManagerClass.LogerManager.PushLog | log4z.cpp:1362-1513 | computes the step PushLog |
| LogerManagerClass.LogerManager.HotChange | log4z.cpp:1527-1540 | queues a request |
| LogerManagerClass.LogerManager.EnableLogger | log4z.cpp:1556-1561 | enables at once, and queues |
| LogerManagerClass.LogerManager.SetLoggerLevel | log4z.cpp:1562-1567 | lowers at once, and queues |
| LogerManagerClass.LogerManager.SetLoggerSwitch | log4z.cpp:1568-1571 | queues a switch |
| LogerManagerClass.LogerManager.SetLoggerLimitsize | log4z.cpp:1573-1577 | queues a limit |
| LogerManagerClass.LogerManager.SetLoggerText | log4z.cpp:1579-1604 | queues a name or path |
| LogerManagerClass.LogerManager.Start | log4z.cpp:1753-1771 | the prologue of run with its loop computes the step Start |
| LogerManagerClass.LogerManager.Stop | log4z.cpp:1339-1349 | clears the running flag |
| LogerManagerClass.LogerManager.ConsumeOne | log4z.cpp:1780-1843 | popLog and the loop body compute the step Consume |
| LogerManagerClass.LogerManager.Drain | log4z.cpp:1780-1844 | the inner loop empties the queue |
| LogerManagerClass.LogerManager.FinishRun | log4z.cpp:1878-1885 | the closing loop switches every logger off |
| BitReading.FixedValue | BitReader.cpp:67-76 | reading a fixed-width field gives the low bits it was written from |
| BitReading.ReadBitsSplit | BitReader.cpp:67-76 | ReadBits(n+m) is ReadBits(n) * 2^m + ReadBits(m) |
| BitReading.BitJoins | BitReader.cpp:70-74 | or-ing the next bit in at its place extends the number by one bit |
| BitReading.AlignedReadsAgree | BitReader.cpp:78-89 | Read32Bits equals ReadBits(32) on every buffer exactly when the cursor is byte-aligned |
| BitReading.SignedRoundTrip | BitReader.cpp:126-138 | the mapping of section 9.1.1 of ITU-T H.264 and its inverse |
| BitReading.CodeTable | BitReader.cpp:111-124 | the first codes of table 9-1 of ITU-T H.264 |
| BitReading.CodeTableMore | BitReader.cpp:111-124 | the next two codes of that table |
| BitReading.SignedTable | BitReader.cpp:126-138 | the first rows of table 9-3 of ITU-T H.264 |
| BitReading.WordIsInt | BitReader.cpp:126-138 | every int of 32 bits survives being returned as an unsigned word |
| BitReading.CodeRoundTrip | BitReader.cpp:111-124 | a written ue(v) code is read back with the cursor just behind it |
| BitReading.FieldRoundTrip | BitReader.cpp:67-138 | the same for ue, se and fixed-width fields |
| BitReading.StreamRoundTrip | BitReader.cpp:67-138 | any list of such fields is read back in order, with the cursor at the exact end |
| BitReading.BitReader.constructor | BitReader.cpp:18-50 | the cursor starts at 0 |
| BitReading.BitReader.ReadBit | BitReader.cpp:52-64 | returns the bit at the cursor and advances; past the end returns all ones and stays |
| BitReading.BitReader.ReadBits | BitReader.cpp:67-76 | the loop computes the value of the next n bits, n at most 32 |
| BitReading.BitReader.Read32Bits | BitReader.cpp:78-89 | the little-endian branch computes the value of the 32 bits from the start of the cursor's byte |
| BitReading.BitReader.ReadExponentialGolombCode | BitReader.cpp:111-124 | computes the code number of section 9.1 of ITU-T H.264 for up to 30 leading zeros, within 31 bits |
| BitReading.BitReader.ReadSE | BitReader.cpp:126-138 | computes the signed value, as the unsigned word it is returned in |
| BitReading.BitReader.ReadFields | BitReader.cpp:67-138 | the methods called for a list of fields return what ReadAll defines, which StreamRoundTrip shows to be the fields written |
| Base64.TablesInvert | base64.cpp:4-11 | alphabet and decoding table are inverse, and padding is not in the alphabet |
| Base64.AlphabetSpelled | base64.cpp:4-11 | the alphabet is that of table 1 of RFC 4648 |
| Base64.GroupsSpelled | base64.cpp:15-42 | the text of one, two and three bytes, padding included |
| Base64.WordToQuad | base64.cpp:30-35 | the shifts and masks of the encoder cut the sextets of section 4 of RFC 4648 |
| Base64.WordToOctets | base64.cpp:67-74 | the shifts and masks of the decoder cut its octets |
| Base64.PaddedText | base64.cpp:38-39 | overwriting the tail of the unpadded text with padding gives the text of section 4 |
| Base64.Encode | base64.cpp:15-42 | the loops write exactly the encoding and a terminating NUL, all in bounds, with the stated output length |
| Base64.BuildDecodingTable | base64.cpp:81-87 | the loop fills in the position of every character of the alphabet |
| Base64.Decode | base64.cpp:45-78 | NULL exactly for a length that is not a multiple of four; otherwise the loops write exactly the decoded bytes, all in bounds |
| Base64.DecodeEncode | base64.cpp:15-78 | decoding the encoding of any non-empty byte string returns it |
| Base64.EncodeDecode | base64.cpp:15-78 | encoding the decoding of a well-formed text returns the text exactly when its unused bits are zero (section 3.5 of RFC 4648) |
| Lists.List.Add | Template.h:58-63 | appends |
| Lists.List.Insert | Template.h:77-99 | inserts, or ignores an index past the end |
| Lists.List.Remove | Template.h:101-111 | removes, or ignores an index past the end |
| Lists.List.RemoveRange | Template.h:125-150 | all branches remove exactly the range, or nothing for a bad one |
| Lists.List.MoveItem | Template.h:236-252 | the shift in either direction is remove-then-insert |
| Lists.List.MoveToFront | Template.h:254-267 | is MoveItem to the first position |
| Lists.List.MoveToEnd | Template.h:269-282 | is MoveItem to the last position |
| Lists.List.RemoveDupes | Template.h:284-299 | the nested loops that remove while iterating leave exactly the first occurrences, and terminate |
| Lists.LaterDuplicate | Template.h:291-295 | removing an item that occurs earlier does not change the first occurrences |
| Lists.FirstOccurrences | Template.h:284-299 | the result has no duplicate and the same members |
| Lists.FirstsInOrder | Template.h:284-299 | the result keeps the order of first occurrence |
| Lists.MoveIsPermutation | Template.h:236-252 | a move keeps the multiset of items, and the opposite move undoes it |
| Lists.OthersKeepOrder | Template.h:236-252 | a moved item lands at its position, and the others keep their order |
| Lists.InsertRemove | Template.h:77-111 | Insert and Remove at one index undo each other, both ways |
| Lists.RangeIsRepeatedRemove | Template.h:125-150 | RemoveRange is Remove at the same index, as often as the range is long |

## Left out

JSON

- JsonNumbers.NumberRead: decimal values are exact reals; rounding of `strtod` to double, underflow and overflow to infinity are not modelled.
- JsonNumbers.NumberWritten: the same.
- JsonParser.Dump: doubles that are neither integers within 2^53 nor non-finite are not printed by the model, since the digits of `%.17g` are outside it; the same holds for DumpArray, DumpObject and the lemmas on dumps.
- JsonRoundTrip.RoundTrip: covers values whose finite doubles are such integers.
- The wording of error messages; one constructor stands for each.
- `has_shape`, the accessors and `operator[]` lookups, and sharing of values through `shared_ptr`.

Reader/writer lock

- `std::lock` is one step, and the internals of the mutexes are not modelled.
- Overflow of the 32-bit `numReaders_`, and callers that release what they have not acquired.

Log queue

- LogerManagerClass.LogerManager.CreateLogger: is given the key already trimmed by `trimLogConfig`.
- LogerManagerClass.LogerManager.PushLog: is given the formatted text; time stamps, formatting and truncation to the buffer are not modelled.
- LogerManagerClass.LogerManager.Start: the announcements of `run` carry no text and are one step with starting the thread; a start while a stopped consumer still drains is excluded, as log4z.h asks for one start per process.
- LogerManagerClass.LogerManager.Stop: does not wait for the consumer, which exits by a step of its own.
- Each operation is one atomic step: the source's unlocked reads and writes of records by several threads are not split further, and the consumer's test for an empty queue and its exit are one step.
- Opening a file is a parameter that says whether it succeeds; file names, rolling, flushing, byte counts, colours, synchronous output and the configuration file are not modelled.
- Wrap-around of the 64-bit counters.

Bit reader, Base64, list

- BitReading.BitReader.ReadExponentialGolombCode: codes with more than 30 leading zeros overflow the source's `int` and are excluded.
- BitReading.BitReader.ReadBits: more than 32 bits, and reads past the end, are excluded.
- Buffers whose bit count does not fit an `int`; the big-endian branch of `Read32Bits`; `IgnoreBytes` and the position getters.
- Base64.Decode: characters outside the alphabet read uninitialised table entries and an empty text reads before its start; both are excluded.
- Base64.Encode: lengths beyond the `int` loop index, and allocation failure.
- Lists.List.MoveItem: negative positions, which the source lets through to memory outside the array, are excluded.
- The list's buffer is a sequence: `realloc`, aliasing and the overlap rules of `memcpy` are not modelled; nor are `TransferFrom`, `CopyArray`, `SetSize`, `SwapValues` and the searches.

Elsewhere

- Sockets, sessions, media parsers, tasks and configuration: input and output, or tables and getters.
