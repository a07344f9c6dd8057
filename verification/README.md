# irctest: verified models of its protocol code

irctest is a test suite for IRC software. Most of it drives other people's servers and clients, but
six of its files hold algorithms and protocols of their own. This project models those six in Dafny
and proves what they keep, what they decide, and where exactly they fall short.

| component | files here | what it is |
|---|---|---|
| SCRAM (RFC 5802) | `Octets`, `ScramEscape`, `ScramMessages`, `ScramOperations`, `ScramClient`, `ScramServer`, `ScramExchange`, `ScramWire` | byte strings, the name escapes, the four message expressions, key derivation, the client and the server as classes, the two of them talking to each other, and every message octet for octet |
| Report compaction | `Report`, `ReportCompaction`, `ReportLosses`, `ReportClashes` | the rewriting of a tree of test results, its normal form, what it conserves, and on which trees it does not |
| Message parser | `Text`, `Tags`, `MessageParser` | IRC lines with message tags, and the printer of the same grammar |
| Client mock | `ClientMock` | framing of received bytes and the buffer of messages between calls |
| Pattern matching | `Patma`, `PatmaDict`, `PatmaLiteral`, `PatmaGreedy` | matching of strings, lists and dicts against patterns with wildcards; dicts with literal keys; when greedy matching is right for any keys |
| Port reservation | `Ports` | controllers that share a file of used ports under a lock |

`Wrappers` holds the option and result types. `dafny verify dfyconfig.toml` checks the whole project.

Code that changes state step by step is modelled as classes and loops, each proved equal to a
specification function; the properties are lemmas about those functions. Exceptions are outcomes that
keep what was already written. HMAC, the hash, base64, the UTF-8 decoder and regular expressions
handed to the pattern matcher are parameters: `Primitives.Valid` and `DecodesLines` list the only
facts used about them (digest length, decoding undoes encoding, the base64 alphabet; a line end is a
character boundary). `FactsAreConsistent` and `AsciiDecodesLines` show an instance of each, so they
are not contradictory. Passwords and names are the bytes of their UTF-8 encoding.

## Where the code and what is expected of it differ

- A nonce of value characters followed by a newline passes `VALUE_CHARS_RE`, because `$` also matches
  before a final newline, so it is not put in base64 and the exchange fails. The exchange also fails
  for an empty salt and a negative iteration count. `ScramExchange.HonestRun` has the exact condition,
  `NewlineNonceFails` the case of the newline.
- The server accepts a proof that is longer than the digest, since `XOR` stops with the shorter operand.
- No hash with digests of a fixed size is injective. Acceptance is therefore exact up to a second
  preimage of the one stored key.
- `_final_challenge` returns an `ExtraChallengeException` after success instead of raising it.
- If the last chunk of a stream starts between the final `\r` and its `\n`, `getMessages` does not see
  the line end and goes on waiting; `ClientMock.AnyCut` says exactly when.
- When a call that neither synchronises nor insists meets a timeout first, `getMessages` returns an
  empty list although messages may be buffered; they are dropped. `ClientMock.IdleDropsBuffer` says
  exactly when.
- A group of results with the key `(others)`, or with both the key `None` and the key `"None"`, loses
  results in the report, failures included; `ReportClashes.VisitExact` says on exactly which
  trees. A subtree with an empty dict is never folded.
- `unescape_tag_value` keeps a backslash that starts no known escape; the message-tags specification
  drops it. They agree exactly when there is none (`Tags.UnescapeMeetsSpec`).
- `parse_message` accepts lines from which it takes a command that is no word, for instance the text
  after ` :` that follows a prefix. Such a message, printed, is not read back.
- `ListRemainder`'s minimum length has no effect when its item is an optional pattern.
- `match_string` raises for None against ANYSTR, although the operator is supported. In `match_dict` the
  order of the two dicts then decides between the error and False: exactly when an entry that raises
  and one that misses come together (`PatmaLiteral.LiteralOrderDecides`).
- `match_dict` is greedy, so with patterns for keys it can miss an assignment that exists. Where the
  entries give answers, it is right whenever the items that compete for an entry are alike to all later
  ones (`PatmaGreedy.MatchDictExact`), and for two entries under no weaker condition (`TwoEntriesExact`).
- Outside a parallel test run the port lock is a null context, and two controllers can then reserve
  the same port.

## Model

| member | source | states |
|---|---|---|
| Octets.XorUnmasks | irctest/scram/scram.py:117-119 | for a key and a mask of one length, applying the mask to some octets gives the key if and only if they start with the masked key; longer operands are cut off |
| Octets.XorIs | irctest/scram/scram.py:117-119 | bit for bit, the exclusive or of the octets at one place, as long as the shorter operand |
| Octets.DecimalIsNumeral | irctest/scram/scram.py:515 | a non-negative count survives being written in decimal and read back, and is made of digits |
| Octets.RunSplits | irctest/scram/scram.py:59-61 | a greedy run of a character class is the only split into class characters and a rest that starts with none |
| ScramEscape.EscapeIsOnePass | irctest/scram/scram.py:148 | the two whole-string replacements equal one pass that replaces every octet on its own |
| ScramEscape.UnescapeIsOnePass | irctest/scram/scram.py:161 | the two replacements in the opposite order equal one left-to-right pass over the escape sequences, so the first never creates an input of the second |
| ScramEscape.EscapeRoundTrip | irctest/scram/scram.py:138-161 | unescaping undoes escaping for every byte string |
| ScramEscape.UnescapeRoundTrip | irctest/scram/scram.py:138-161 | escaping undoes unescaping if and only if the string is a saslname: no comma, and every equals sign starts `=2C` or `=3D` |
| ScramEscape.EscapedIsOneField | irctest/scram/scram.py:138-148 | an escaped value has no comma, so it is one field of a message, and is empty only for the empty value |
| ScramEscape.EscapeInstance | irctest/scram/scram.py:138-161 | which sequence stands for which octet |
| ScramMessages.ScanExact | irctest/scram/scram.py:56-81 | scanning a list of attributes succeeds with given values and rest if and only if these fit their classes and the text is their rendering |
| ScramMessages.ExtensionSplits | irctest/scram/scram.py:59 | the optional `m=` extension before an attribute is split off in exactly one way, although its class contains commas |
| ScramMessages.ClientFirstExact | irctest/scram/scram.py:56-63 | the expression matches with given groups if and only if the text, up to a final newline, is that of the well-formed message made of these groups |
| ScramMessages.ServerFirstExact | irctest/scram/scram.py:65-71 | the same for the server's first message |
| ScramMessages.ClientFinalExact | irctest/scram/scram.py:73-78 | the same for the client's final message, where the greedy tail leaves only the last attribute as the proof |
| ScramMessages.ServerFinalExact | irctest/scram/scram.py:80-81 | the same for the server's final message; an error takes a final newline in, a verifier does not |
| ScramOperations.Primitives.ComputeHi | irctest/scram/scram.py:127-135 | the loop computes U1 XOR ... XOR Ui of section 2.2 of RFC 5802, and U1 for counts below one |
| ScramOperations.Primitives.HiChain | irctest/scram/scram.py:127-135 | the result is the XOR of a chain of HMACs of the password that starts with the salt and the number one |
| ScramOperations.Primitives.HiLength | irctest/scram/scram.py:127-135 | the derived key is as long as a digest for every count |
| ScramClient.ScramClientAuthenticator.constructor | irctest/scram/scram.py:172-197 | a new client holds nothing and has not finished |
| ScramClient.ScramClientAuthenticator.Start | irctest/scram/scram.py:203-245 | the first message and every field written, on the normal path and before each exception |
| ScramClient.ScramClientAuthenticator.ChooseBinding | irctest/scram/scram.py:212-232 | the flag and the binding data, in the order of preference of the types, or the error |
| ScramClient.ScramClientAuthenticator.Challenge | irctest/scram/scram.py:247-292 | the whole state change of a challenge; the first message is kept even when it is then refused |
| ScramClient.ScramClientAuthenticator.MakeResponse | irctest/scram/scram.py:294-323 | the proof message, the transcript and the salted password, and the password gone |
| ScramClient.ScramClientAuthenticator.FinalChallenge | irctest/scram/scram.py:325-356 | which error a final message raises, and that only the right signature finishes; nothing but the flag changes |
| ScramClient.ScramClientAuthenticator.Finish | irctest/scram/scram.py:358-382 | when the identity is returned, and the error otherwise |
| ScramClient.RunKeepsInv | irctest/scram/scram.py:247-382 | after every sequence of calls the client is as started, or refused for good, or holds keys and transcript derived from one valid first challenge that extends its nonce |
| ScramClient.WrittenOnce | irctest/scram/scram.py:247-356 | over every run the first server message, the transcript and the salted password are written at most once, and the finished flag never reverts |
| ScramClient.FinishedWasSigned | irctest/scram/scram.py:325-356 | a finished client has received, in some call, the server signature over the transcript it still holds |
| ScramClient.IdentityNeedsSignature | irctest/scram/scram.py:358-382 | an identity is returned only if some input carried the server signature over this run's transcript, whose nonce extends the client's; it is the identity given at the start |
| ScramClient.RefusalIsFinal | irctest/scram/scram.py:266-290 | after a first challenge that matched the syntax and was then rejected, no continuation returns an identity |
| ScramServer.ScramServerAuthenticator.constructor | irctest/scram/scram.py:388-408 | a new server holds no message and no keys |
| ScramServer.ScramServerAuthenticator.Start | irctest/scram/scram.py:410-416 | a start forgets the first message of an earlier run and, given an initial response, processes it |
| ScramServer.ScramServerAuthenticator.Response | irctest/scram/scram.py:418-424 | whether a response counts as a first or as a final one depends on the first message being there |
| ScramServer.ScramServerAuthenticator.HandleFirstResponse | irctest/scram/scram.py:426-522 | the whole state and the reply, with output properties already written when the database then fails |
| ScramServer.ScramServerAuthenticator.LookUp | irctest/scram/scram.py:470-505 | keys, salt and count for each database format, and no keys for an unknown user although they are derived |
| ScramServer.ScramServerAuthenticator.HandleFinalResponse | irctest/scram/scram.py:524-559 | the verdict on a final message, with the error of the first check that fails, and no state change |
| ScramServer.AcceptanceExact | irctest/scram/scram.py:540-559 | an admissible final message is accepted if and only if its proof starts with the client key masked by this run's signature, or it unmasks to another preimage of the stored key |
| ScramServer.AcceptanceIsProof | irctest/scram/scram.py:552-559 | if nothing else of at most a digest's length hashes to the stored key, acceptance is exactly the proof check |
| ScramServer.AcceptedIsAdmissible | irctest/scram/scram.py:525-538 | nothing is accepted that does not repeat this run's nonce, header and channel-binding data |
| ScramServer.FormatsAgree | irctest/scram/scram.py:470-498 | the three database formats of one password under one salt and count give the same keys and announcement |
| ScramServer.SameReplyForConsistentFormats | irctest/scram/scram.py:426-522 | two consistent databases lead to the same state and the same first server message for the same draws |
| ScramServer.Coherence | irctest/scram/scram.py:410-522 | in every run, once a first message is held, nonce, header, reply, keys and output properties all come from that one message and one draw |
| ScramServer.RefusedFirstStaysFirst | irctest/scram/scram.py:426-522 | a refused first message never moves the server on to final messages, and an answered one always does |
| ScramServer.AcceptNeedsFirst | irctest/scram/scram.py:410-559 | no call accepts unless an earlier one of the run was answered with the message it is checked against; the identity handed out is that of that earlier message |
| ScramExchange.EscapedIsValue | irctest/scram/scram.py:54 | an escaped name fits its group if and only if the name is non-empty and printable, commas and equals signs included |
| ScramExchange.WireNonceShape | irctest/scram/scram.py:207-210 | a nonce on the wire is a value, unless it was empty or ended in a newline |
| ScramExchange.FirstIsRead | irctest/scram/scram.py:203-245 | the server matches the client's first message if and only if the names are printable and there is a nonce, and reads back what the client put in |
| ScramExchange.ServerFirstIsRead | irctest/scram/scram.py:507-522 | the client matches the server's first message if and only if salt, count and nonce are sendable, and reads them back |
| ScramExchange.ServerAnswers | irctest/scram/scram.py:410-522 | when the server answers an honest client, and what it then holds |
| ScramExchange.ClientResponds | irctest/scram/scram.py:247-323 | when the client responds to an honest server, and that it then has signed this exchange's transcript |
| ScramExchange.ServerAccepts | irctest/scram/scram.py:524-559 | the server accepts the honest final message if and only if the channel bindings agree, and sends the signature over the same transcript |
| ScramExchange.ClientFinishes | irctest/scram/scram.py:325-356 | the client takes the server's signature over the transcript it holds |
| ScramExchange.HonestRun | irctest/scram/scram.py:203-559 | with the right password in any database format, the exchange succeeds if and only if the parties are compatible; then both hold one transcript, the server names exactly the client's user and authorisation identity, and the client hands out its identity, whether the verifier comes as a challenge or with the success |
| ScramExchange.PlainHonestRun | irctest/scram/scram.py:203-559 | in particular, with the plain password in the database and no channel binding, every printable name, any password and every sensible nonce, salt and count go through |
| ScramExchange.NewlineNonceFails | irctest/scram/scram.py:207-210 | a value followed by a newline is such a nonce, and with it no exchange succeeds |
| ScramWire.ClientFirstIs | irctest/scram/scram.py:56-63 | the expression matches with given groups if and only if the text has that form, character classes and optional parts written out |
| ScramWire.ServerFirstIs | irctest/scram/scram.py:65-71 | the same for the server's first message |
| ScramWire.ClientFinalIs | irctest/scram/scram.py:73-78 | the same for the client's final message |
| ScramWire.ServerFinalIs | irctest/scram/scram.py:80-81 | the same for the server's final message |
| ScramWire.WireNonceIs | irctest/scram/scram.py:207-210 | a draw that is a value goes on the wire as it is; any other is what the base64 on the wire decodes to, but for a value with a newline |
| ScramWire.StartIs | irctest/scram/scram.py:203-245 | the client's first message is flag, authorisation identity, name and nonce in this order, each of which can be read back as what was given; and every field kept |
| ScramWire.ChallengeIs | irctest/scram/scram.py:247-323 | which first challenges are refused, with what kept, and for the others the transcript, the proof and the message by RFC 5802's formulas |
| ScramWire.FinalChallengeIs | irctest/scram/scram.py:325-356 | only HMAC(HMAC(salted password, "Server Key"), transcript) finishes; every error otherwise |
| ScramWire.FinishIs | irctest/scram/scram.py:358-382 | which success is too early, which hands out the identity, and which is one more challenge |
| ScramWire.ServerStartIs | irctest/scram/scram.py:410-424 | a start forgets message and identity; the next message is a first one until one is answered, and then a final one |
| ScramWire.FirstReplyIs | irctest/scram/scram.py:426-522 | the reply is the client's nonce followed by the server's own draw, the salt and the count, and the keys kept are RFC 5802's for the stored form of the password |
| ScramWire.ReplyIsRead | irctest/scram/scram.py:507-522 | the nonce the client reads in the reply is its own followed by the server's draw, as it is or in base64 |
| ScramWire.FirstRefusalIs | irctest/scram/scram.py:426-453 | which first messages are refused, with which error, and that nothing but the output properties changes |
| ScramWire.VerdictIs | irctest/scram/scram.py:524-559 | every check and error on a final message in order: a user without a stored key is refused, and acceptance needs that the unmasked proof hashes to the stored key |
| Report.HoistShrinks | report.py:71-73 | each round of the hoisting loop shrinks the tree, so the loop ends |
| Report.RenameIs | report.py:73 | without a key clash, hoisting keeps every value in order under the text of the outer key, two colons and the text of its own |
| Report.ComputePartialCompaction | report.py:40-62 | the loop keeps the other items in order and puts the perfect successes, merged if there are several, where Python's dict puts them |
| Report.ComputeCompactDict | report.py:68-89 | the whole rewriting of one dict, its `while` loop included, for every dict |
| ReportCompaction.PartialCompactionConserves | report.py:40-62 | one call keeps tests, failures and skipped tests if it overwrites nothing, and loses tests otherwise |
| ReportCompaction.HoistIs | report.py:71-73 | the loop stops at once or after one hoisting of a normal dict, keeps all counts and messages, and leaves no chain and no single status |
| ReportCompaction.PartialIsNormal | report.py:40-62 | partial compaction of a mixed dict is in normal form: never one entry, never one status, at most one perfect success |
| ReportCompaction.CompactDictIs | report.py:65-89 | one rewriting gives a normal value with the same counts and messages, and a single result only for one status |
| ReportCompaction.VisitConserves | report.py:15-98 | on every clean tree the output is in normal form at every depth and counts the same tests, failures and skipped tests; with readable results it also holds the same messages |
| ReportCompaction.MessagesAreKept | report.py:15-98 | on every clean, readable tree, a message is in the report if and only if it is not empty and some test of the tree has it |
| ReportCompaction.SelectOrder | report.py:45-49 | the items kept, and the successes, are those items of the dict in their order |
| ReportCompaction.PartialCompactionIs | report.py:50-62 | after the items kept comes the one success as it is, or all of them as one item `(others)` with their number |
| ReportCompaction.VisitNone | report.py:69-70 | a single item with the key None is replaced by its value |
| ReportCompaction.VisitChain | report.py:71-73 | the items of a dict that is the only value of another take its key before theirs |
| ReportCompaction.VisitNonEmpty | report.py:15-98 | without empty dicts in the tree there is none in the output, so every dict of it has at least two entries |
| ReportCompaction.UniformIsFolded | report.py:77-87 | a tree whose tests all have one outcome becomes a single result with that flag, whatever its keys are |
| ReportCompaction.FoldedIsUniform | report.py:65-89 | on a clean tree nothing else becomes a single result |
| ReportCompaction.CompactionDecidesUniformity | report.py:15-98 | a clean tree becomes a single result with a given flag if and only if it has no empty dict and all its tests have that outcome |
| ReportCompaction.VisitNeverAdds | report.py:15-98 | on every tree, whatever its keys, compaction never adds a test, a failure, a skipped test or a skipped failure |
| ReportCompaction.FormatNeverFails | report.py:101-116 | on every tree, whatever its keys, in which no failed test is marked as skipped, the assertion cannot fire on what compaction makes of it; on a clean tree with such a test it does |
| ReportCompaction.ReadableSkips | report.py:101-116 | results in which a skipped test counts as a success have no failed test marked as skipped |
| ReportLosses.RenameConserves | report.py:73 | one hoisting round keeps the number of tests unless the dict holds both the key None and the key "None", and loses tests if it does |
| ReportLosses.HoistExact | report.py:71-73 | the loop loses tests if and only if some round meets such a pair |
| ReportLosses.CompactDictExact | report.py:65-89 | one call loses tests if and only if it overwrites while hoisting or while merging |
| ReportLosses.VisitLoses | report.py:15-98 | a step towards the next rows: the report counts every test if and only if no call overwrites an item, and then every failure and skipped test too |
| ReportClashes.SafeValue | report.py:65-95 | where nothing is lost, a tree becomes a single result if and only if its tests have one outcome, and a perfect success if and only if all of them succeeded and none was skipped |
| ReportClashes.LossHere | report.py:65-89 | in a dict whose parts lose nothing, the call loses tests if and only if perfect items are merged over another one called `(others)`, or a single item is a mixed dict that keeps both None and "None" |
| ReportClashes.LossIsClash | report.py:15-98 | compaction overwrites an item somewhere if and only if the tree as read has such a dict |
| ReportClashes.VisitExact | report.py:15-98 | for every tree without empty dicts, whatever its keys: the report counts fewer tests if such a dict is in the tree, and otherwise the same tests, failures, skipped tests and skipped failures |
| ReportClashes.UniformityWithoutClash | report.py:15-98 | on every other such tree, compaction decides uniformity, and every dict of the output has at least two entries of more than one status |
| ReportLosses.OthersKeyLosesFailures | report.py:56 | a failed group named `(others)` beside two successes is reported as two successes |
| ReportLosses.NoneKeyLosesFailures | report.py:73 | a failure under None and a success under "None", hoisted, are reported as one success |
| Text.SplitJoin | irctest/irc_utils/message_parser.py:42 | splitting undoes joining for pieces without the separator |
| Text.SplitParts | irctest/irc_utils/message_parser.py:42 | the pieces of a split lack the separator and join to the string |
| Text.CutFirst | irctest/irc_utils/message_parser.py:46 | a split in two cuts at the first separator |
| Tags.EscapeRoundTrip | irctest/irc_utils/message_parser.py:27-34 | unescaping undoes the escape table for every value |
| Tags.TableIs | irctest/irc_utils/message_parser.py:27-34 | which sequence stands for which character |
| Tags.EscapedIsSafe | irctest/irc_utils/message_parser.py:27-33 | an escaped value has no space, semicolon, carriage return or newline |
| Tags.UnescapeRoundTrip | irctest/irc_utils/message_parser.py:22-34 | escaping undoes unescaping if and only if the text is one that escaping can write |
| Tags.UnescapeMeetsSpec | irctest/irc_utils/message_parser.py:22-34 | the code and the message-tags specification unescape a value to the same text if and only if every backslash, read left to right, starts an escape |
| Tags.SpecReadsEscaped | irctest/irc_utils/message_parser.py:27-34 | the specification's unescaping gives back every value that the table has escaped, as the code's does |
| Tags.LoneBackslashes | irctest/irc_utils/message_parser.py:22-34 | two inputs on which they differ: a backslash before another character and one at the end |
| Tags.ValidKeyExact | irctest/irc_utils/message_parser.py:37 | the key test accepts exactly an optional plus sign or vendor, a non-empty name, and possibly a newline |
| Tags.ValidKeySpelled | irctest/irc_utils/message_parser.py:37 | the same with the shape written out: a plus sign or none, a vendor without white space before a slash or none, a name of letters, digits and hyphens |
| Tags.SpacesAre | irctest/irc_utils/message_parser.py:37 | the characters that count as white space |
| Tags.ComputeTags | irctest/irc_utils/message_parser.py:40-49 | the loop gives the dict of all pieces, later ones over earlier ones, or the error of the first bad key |
| Tags.ParseTagsFails | irctest/irc_utils/message_parser.py:42-49 | parsing fails if and only if some piece has an equals sign and an invalid key before the first one |
| Tags.TagsRoundTrip | irctest/irc_utils/message_parser.py:40-49 | parsing gives back every non-empty list of printable tags as its dict, with a missing value and an empty one kept apart |
| Tags.NoTagsIsNotNothing | irctest/irc_utils/message_parser.py:40-49 | the empty list of tags is not read back: it parses as one tag with an empty key |
| MessageParser.ComputeMessage | irctest/irc_utils/message_parser.py:79-104 | the statements give the message, or the error, of the grammar's specification function |
| MessageParser.ParseErrors | irctest/irc_utils/message_parser.py:87-104 | which lines without tags are refused and why: a forbidden character comes first, then a missing space after tags, then a missing command |
| MessageParser.TaggedErrors | irctest/irc_utils/message_parser.py:91-104 | which lines with tags are refused and why |
| MessageParser.TokensRoundTrip | irctest/irc_utils/message_parser.py:96-100 | words joined by spaces, with or without a trailing parameter, are read back as they are |
| MessageParser.BodyRoundTrip | irctest/irc_utils/message_parser.py:96-104 | prefix, command and parameters are read back from their rendering |
| MessageParser.PrintParse | irctest/irc_utils/message_parser.py:79-104 | a message whose other parts fit the grammar is read back from its rendering if and only if its command fits too, whichever way the last parameter is written |
| MessageParser.ReparseAccepted | irctest/irc_utils/message_parser.py:79-104 | for every accepted line, the parsed message rendered and parsed again is the same if and only if its command fits; its tags can always be rendered |
| MessageParser.ListingExists | irctest/irc_utils/message_parser.py:60-65 | every dict of tags has a list of tags that renders it |
| MessageParser.AtSignMakesTags | irctest/irc_utils/message_parser.py:91-95 | an accepted line that starts with an at sign has tags |
| MessageParser.TrailingTakenForCommand | irctest/irc_utils/message_parser.py:96-103 | after a prefix, the text behind the separator is taken for the command, whatever it is |
| ClientMock.LinesConcat | irctest/client_mock.py:91 | a text that ends in a line end can be split into lines apart from what follows |
| ClientMock.LinesAre | irctest/client_mock.py:91 | the lines hold no line end and put the text together again |
| ClientMock.ItemsConcat | irctest/client_mock.py:91-110 | what two texts deliver together is what they deliver one after the other, errors included |
| ClientMock.CollectIs | irctest/client_mock.py:91-110 | the items are made, raw or parsed as asked, of exactly the lines that are neither blank nor the synchronisation PONG, in their order |
| ClientMock.CollectFailure | irctest/client_mock.py:91-104 | a batch fails at its first line that cannot be parsed or says that the PING came too early, and with which error |
| ClientMock.Client.constructor | irctest/client_mock.py:12-17 | a new client has an empty buffer and no history |
| ClientMock.Client.GetMessages | irctest/client_mock.py:41-117 | the receive loop gives the outcome, the events left, the emptied buffer and the history of the specification, for every sequence of chunks, timeouts, resets and end of data |
| ClientMock.Client.ReadLines | irctest/client_mock.py:91-109 | the loop over lines keeps their order, drops only synchronisation PONGs and blank lines, and stops at the first error |
| ClientMock.Client.GetMessage | irctest/client_mock.py:119-136 | the loop of refilling and popping gives the message, the error and the buffer of the specification |
| ClientMock.GetMessageFilters | irctest/client_mock.py:127-136 | the message returned passes the filter and everything handed out before it in the call is refused by it; without one, all that was handed out is refused and the buffer is empty |
| ClientMock.RefillRequestIs | irctest/client_mock.py:128-133 | a refill insists on getting something, synchronises and asks for raw lines as the caller does, and is over when it brings nothing |
| ClientMock.TakeAll | irctest/cases.py:616-619 | a test's call is handed all that the client returns, as the step of the runs says |
| ClientMock.Framing | irctest/client_mock.py:54-117 | when the loop ends by itself, no byte is pending and the result is the old buffer followed by the messages of all consumed bytes read as one text, so no cut into chunks can be seen in it |
| ClientMock.AnyCut | irctest/client_mock.py:57-110 | however a stream that synchronises is cut and delayed, the call returns what the whole stream delivers if the last chunk ends with the line end, and otherwise goes on waiting |
| ClientMock.StopsAtLine | irctest/client_mock.py:57-110 | a call that does not synchronise stops at the first chunk that ends a line, with what has come in until then, and leaves the rest; before that it waits, unless nothing comes |
| ClientMock.EndOfConnection | irctest/client_mock.py:67-115 | when the connection ends before the answer comes, however the stream was cut, all messages of whole lines and those buffered before are returned, and having none is an error |
| ClientMock.CutBeforeNewline | irctest/client_mock.py:57-110 | a line that answers the PING ends the call when it comes whole, and leaves it waiting when cut before its newline |
| ClientMock.RefillBalance | irctest/client_mock.py:41-117 | a refill that returns normally adds to the history exactly what some whole lines deliver, and returns the messages missing from it, in order; which refills drop something |
| ClientMock.GetMessageBalance | irctest/client_mock.py:119-136 | taking one message, with any number of refills and filtered messages, keeps history and buffer in balance |
| ClientMock.ExactlyOnceInOrder | irctest/client_mock.py:41-136 | after any calls of which none dropped anything, what was handed out or discarded by filters, followed by the buffer, is the wire order of messages |
| ClientMock.IdleIs | irctest/client_mock.py:57-66 | the receive loop ends idle if and only if the caller neither synchronises nor insists and the first event is a timeout |
| ClientMock.IdleDropsBuffer | irctest/client_mock.py:60-63 | a call returns an empty list exactly when it neither synchronises nor insists and a timeout comes first; it then drops exactly what was buffered, so delivery stays complete if and only if nothing was |
| Patma.MatchStringMeans | irctest/patma.py:114-141 | for every value, None included, and every pattern: the call raises exactly when an operator that fails on the value is reached before an alternative matches, and otherwise the answer is the pattern's meaning |
| Patma.SupportedAnswers | irctest/patma.py:114-141 | a supported pattern always answers for a string, and for None if it holds no ANYSTR at any depth |
| Patma.ComputeMatchList | irctest/patma.py:144-172 | the statements and loops of list matching give the specification's answer or error |
| Patma.CountOptionalsIs | irctest/patma.py:159-165 | the counting loop fails if and only if an optional pattern precedes a required one, and otherwise counts the optional tail |
| Patma.MatchAllIs | irctest/patma.py:169-172 | padding with None only meets optional patterns, so the check fails if and only if a present item is reached that gets no answer, and otherwise says whether each present item matches |
| Patma.StringsAnswer | irctest/patma.py:169-172 | a list of strings against supported patterns never reaches the unsupported-operator error |
| Patma.MatchListIs | irctest/patma.py:144-172 | the outcome for every list and pattern list, both errors included: true if and only if the length lies between the required and the full count and every item matches |
| Patma.OptionalMustBeLast | irctest/patma.py:159-165 | the error is raised if and only if an ANYOPTSTR or OptStrRe stands before any other pattern |
| Patma.MatchListWithOptionals | irctest/patma.py:159-172 | the same, errors included, for required patterns followed by any ANYOPTSTR and OptStrRe |
| Patma.MatchListWithRemainder | irctest/patma.py:152-172 | with a final remainder, errors included: enough items, the fixed ones match and all others match the item; the minimum length counts only for an item that is neither ANYOPTSTR nor OptStrRe |
| PatmaDict.ComputeMatchDict | irctest/patma.py:175-216 | the nested loops that remove matched keys give the specification's answer or error |
| PatmaDict.MatchDictSound | irctest/patma.py:186-216 | a positive answer implies that different items can be assigned to all explicit entries they match, with every item left over matching the wildcard, or none left |
| PatmaDict.MatchDictAnswers | irctest/patma.py:186-216 | if every entry gives an answer for every item, the call gives one, whatever the keys, values and order |
| PatmaDict.AnswerableAnswers | irctest/patma.py:186-216 | that is so when no operator is unknown and no ANYSTR stands for a value that may be asked of an item with the value None |
| PatmaLiteral.MatchDictIs | irctest/patma.py:186-216 | the outcome of every call with literal keys: the first entry that raises or misses decides, then the items left over in their order |
| PatmaLiteral.MatchDictLiteral | irctest/patma.py:186-216 | with literal keys, where every entry gives an answer, the call is true if and only if every literal key is there with a matching value and every other item matches the wildcard |
| PatmaLiteral.LiteralOrderIrrelevant | irctest/patma.py:191-216 | with literal keys, no order of either dict changes the outcome unless one that raises and one that misses come together |
| PatmaLiteral.LiteralOrderDecides | irctest/patma.py:191-216 | and if they do, another order of the same dicts has another outcome |
| PatmaLiteral.NoneAgainstAnyStr | irctest/patma.py:117-137 | two such dicts: None against ANYSTR raises in one order, and in the other the call is already false |
| PatmaLiteral.ValuelessTag | irctest/server_tests/bot_mode.py:89 | the pattern of a tag without a value beside any others answers for every dict, and is true exactly when that tag is there with the value None |
| PatmaGreedy.MatchDictExact | irctest/patma.py:186-216 | for any keys: if items that compete for an entry are alike to all later entries and the wildcard, the answer is exactly whether an assignment of different items to all entries exists with fitting leftovers |
| PatmaGreedy.GreedyMissesAssignment | irctest/patma.py:195-200 | any two items of which both fit an entry but only the first fits the next, or the wildcard, make the answer false although an assignment exists |
| PatmaGreedy.TwoEntriesExact | irctest/patma.py:191-216 | for two entries the answer is right for every dict for which they give answers if and only if there are no two such items |
| PatmaGreedy.AnyKeyTakesLiteral | irctest/patma.py:195-200 | an instance: ANYSTR before a literal key |
| PatmaGreedy.LiteralIsExchangeable | irctest/patma.py:195-200 | with literal keys no two items compete |
| Ports.PortFile.constructor | irctest/basecontrollers.py:112-113 | at first there is no file |
| Ports.Controller.constructor | irctest/basecontrollers.py:103-107 | a new controller owns no port |
| Ports.Controller.GetHostnameAndPort | irctest/basecontrollers.py:120-132 | a reservation adds one unused candidate to the file and to the controller's ports, and changes neither while all candidates are used |
| Ports.Controller.Kill | irctest/basecontrollers.py:172-180 | a kill succeeds if and only if all the controller's ports are in the file, and then removes exactly these from both; if it fails the file stays as it was |
| Ports.StepKeepsInv | irctest/basecontrollers.py:109-132 | under the lock, every step of any controller keeps the ports disjoint, covered by the file or the set being worked on, and free of failed removals |
| Ports.RunKeepsInv | irctest/basecontrollers.py:109-180 | the same for every interleaving of steps |
| Ports.PortsAreExclusive | irctest/basecontrollers.py:109-180 | from no controllers and any file, in every interleaving of reserving, killing and crashing outside the section: no two controllers own one port, all owned ports are in the file when the lock is free, and no removal fails |
| Ports.SectionStep | irctest/basecontrollers.py:109-118 | what a section has done so far is known after each step of anybody, and nobody else's ports change |
| Ports.SectionEffect | irctest/basecontrollers.py:120-180 | from taking the lock to its release, a kill takes exactly its controller's ports out of the file and a reservation adds exactly one port that was not there |
| Ports.ReserveIsRun | irctest/basecontrollers.py:120-132 | a reservation that nobody interleaves with is a run of the step model, with the method's result |
| Ports.KillIsRun | irctest/basecontrollers.py:172-180 | so is a kill, whatever the number of its ports |
| Ports.UnlockedControllersCollide | irctest/irc_utils/filelock.py:11-18 | with the null context in place of the lock, two controllers can both reserve any port that is free |

## Left out

- ScramServer.AcceptanceExact: not stated for an injective hash, because digests have a fixed size and no such hash exists; a collision with the stored key appears as a case of its own.
- ScramClient.WrittenOnce: holds after one successful start; a second start of one client is only described by `StartStep`.
- ClientMock.ExactlyOnceInOrder: excludes the idle return with messages buffered, a connection that ends, and calls that raise; these drop messages, and `IdleDropsBuffer` says what the first of them drops.
- ClientMock.Client.GetMessages: when the events run out the call is reported as waiting; neither the receive loop nor the choice of ports is claimed to end.
- PatmaDict.MatchDictSound: one direction only, because the other is false (`GreedyMissesAssignment`); `PatmaGreedy.MatchDictExact` has both where it holds, and where the dicts give answers.
- ReportClashes.VisitExact: on trees without empty dicts; a lost empty dict changes no count.
- Sockets, TLS, timing, logging, the sending of lines, processes and signals. The socket is a sequence of events, the time a token generator.
- The hash, HMAC and base64 themselves, UTF-8 and the regular expression engine. Base64 decoding is a partial function that inverts encoding.
- The password database is a function of the user name; the formats and properties passed to it are not.
- The Python 2 branch of `XOR`. An unknown channel-binding type (`cb_data.keys()[0]`) is the error it is in Python 3.
- A missing password in the SaltedPassword or Keys format is an error outcome; the message for the log is not modelled.
- Python's limit on the length of numerals in `int`.
- The `type` field of a test result, the reading of test reports and the HTML of the report.
- The contents of the port file as JSON, and a controller that crashes inside the critical section.
- `irctest/server_tests`, `irctest/client_tests`, `irctest/controllers`, `irctest/cases.py` beyond one call, the dashboard and the workflow generator: they drive or configure external software, or would add only easy members.
