# Verified models of the protocol libraries

Dafny models of the protocol logic in `packages/imap`, `packages/tls`, `packages/smtp` and
`packages/x509`, and proofs of what that logic is for. `dafny verify dfyconfig.toml` checks them all.

Bytes are sequences of 0..255 and strings sequences of UTF-16 code units (`Bytes`). An `await` is a
point where other steps may come in between. What the code calls and cannot see into (WebCrypto,
`TextDecoder`, path validation, `parseResponse`) is a function-valued parameter, with the laws it is
relied on for as a precondition of the lemmas that need them. Where the source works by changing
things step by step there is a method or a class in its form, proved equal to a specification
function; the properties are proved of that function, for all inputs and all runs.

- **IMAP framing** (`LogicalLine`, `LineGrammar`, `Tokens`, `TokenSpelling`, `ResponseReader`): a resumable
  parser fed in chunks answers what one parse of the concatenated bytes answers; and exactly which
  octets are a line, and which tokens.
- **IMAP commands** (`Commands`, `MailCommands`, `SearchCommand`, `Utf7`): what the client writes, its
  own reader frames as one line and tokenizes back to the values, mailbox names included.
- **UIDs** (`UidRanges`, `CopyUid`): sets with as few and as maximal ranges as possible, COPYUID
  kept as ranges, merged, and read as the lists they stand for.
- **The command queue** (`CommandQueue`, `QueueLogs`, `QueueCalls`, `ClosedClient`, `QueueProgress`): calls,
  commands, literals, IDLE and DONE in every interleaving, judged by a monitor that knows only the log.
- **TLS messages** (`HandshakeCodec`, `HandshakeMessages`, `HandshakeLoops`, `DecodedForms`,
  `CanonicalForms`, `ProductionHello`): decoding undoes encoding, and encoding decoding where the
  octets are canonical; the offset loops are the recursive decoders; the ClientHello's padding.
- **TLS connection** (`TlsRecord`, `PlainRecords`, `TlsSealing`, `SealingSafety`, `KeyLimits`, `TlsReading`,
  `PeerReading`, `TlsStream`): records and nonces, which key and number each record takes, what bounds
  a read, what it answers to anything a server may send, and both ends together.
- **TLS handshake** (`HandshakeFlight`, `FlightRefusals`, `HandshakeHello`, `HelloExactness`,
  `HelloRefusals`, `Handshake`, `HandshakeExactness`, `HandshakeRun`): exactly which messages are a
  successful handshake, what its transcript is, and which alert ends any other.
- **Key shares** (`ScalarMult`, `CurveFormulas`): modular inverse, scalar multiplication, tangent and
  chord.
- **SMTP and MIME** (`SmtpData`, `SmtpClient`, `SmtpDialogue`, `QuotedPrintable`, `EncodedWords`,
  `HeaderReading`, `HeaderFolding`, `EncodedRoundTrip`, `Base64`): what `send` says and what its
  failure may mean, and text that comes back.
- **Names** (`DnsNames`, `NameConstraints`): wildcards under permitted and excluded subtrees.

## Where the code does less than one might expect

Each of these is stated exactly and proved.

- A fatal alert seals with a copy of the write keys. A refused KeyUpdate or an empty write that
  rekeys leaves the copy behind; data, a KeyUpdate answer that is taken and the close_notify bring it
  back. The first fatal alert repeats a (generation, sequence number) pair if and only if the last of
  these left it behind (`SealingSafety.SealsNeverRepeat`), and a run behind it, without another alert,
  repeats one as soon as it seals anything (`SealingSafety.AlertIsLast`).
- `read` has no ceiling on handshake fragments without content (`TlsStream.HollowIsUnbounded`). It
  refuses an honest peer if and only if the 33rd KeyUpdate since the last data goes out, which takes
  empty writes (`TlsStream.AllArrives`, `TlsStream.NoEmptyWriteIsPaced`).
- A LF behind a literal that ends in a CR is not taken for a bare one (`LineGrammar.LinesExactly`).
- Data with a bare LF in front of a dot, or at its end, reaches a server that ends lines at CRLF alone
  with the dot doubled, or without an end (`SmtpData.DataArrives`).
- A DONE whose write rejects after its IDLE was answered closes the client under whoever is at work. A
  read under way still delivers one response (`ClosedClient.ClosedHearsOnce`), and a task that has
  looked and waits at the greeting, and no other, still begins one line
  (`ClosedClient.SpareLineExactly`).
- An excluded subtree refuses a wildcard that has no host in it exactly when it lies below the
  wildcard's suffix and is not matched itself (`DnsNames.ExclusionOverreaches`).
- Encoded-words lose a U+FEFF in front and lone surrogates, and nothing else
  (`EncodedRoundTrip.EncodedWordsRoundTrip`). Folding loses a space in front, and one where a fold
  falls between two (`HeaderFolding.FoldingKeepsText`).
- `modInverse` answers 1 for `k = 0`, and divides by zero when the operands share a divisor
  (`ScalarMult.ModInverse`).

## Model

| member | source | states |
|---|---|---|
| LogicalLine.CheckBareLf | packages/imap/src/tokenizer.ts:75-87 | the failure names the first LF in the range that no CR precedes, and there is none exactly when no such LF is there |
| LogicalLine.ParseLiteralHeader | packages/imap/src/tokenizer.ts:89-138 | the leftward walk over the text before a CRLF decides, for every text, exactly what the header grammar says: no header, a malformed one and why, or a length within 32 bits and the limit |
| LogicalLine.ReadLogicalLine | packages/imap/src/tokenizer.ts:140-265 | the loop, fresh or resumed, equals the one-shot reading of the whole buffer continued from what was kept |
| LogicalLine.ScanIsStable | packages/imap/src/tokenizer.ts:140-265 | a reading that completed or failed stays as it is whatever bytes follow |
| LogicalLine.ScanResumes | packages/imap/src/tokenizer.ts:140-265 | an unfinished reading, taken up again on any longer buffer from its saved offsets, segments and pending literal, gives what reading that buffer afresh gives |
| LogicalLine.ResumeSearch | packages/imap/src/tokenizer.ts:169-187 | searching again from the saved offset, the last byte seen, finds the same first CRLF and the same first bare LF as searching from the start of the text |
| LineGrammar.LinesExactly | packages/imap/src/tokenizer.ts:75-265 | a reading completes with these segments if and only if the octets are texts with their lengths and literals and a last text that announces none, and fails this way if and only if such parts are followed by a first bare LF or by a length that is malformed, empty, past 32 bits or past the limit; in every other case it asks for more |
| LineGrammar.HeaderSays | packages/imap/src/tokenizer.ts:89-138 | what the end of a text announces, said of its octets: a length in braces, with a plus or without, within both limits; the reason it is refused; or nothing |
| Tokens.TokenizeTextSegment | packages/imap/src/tokenizer.ts:267-401 | the token loop pushes exactly the tokens of the text behind those already there, or fails where the grammar has no token |
| Tokens.TokenizeLogicalLine | packages/imap/src/tokenizer.ts:403-416 | segments become tokens in order, a literal as one string token |
| Tokens.TokensShift | packages/imap/src/tokenizer.ts:267-401 | a tokenizer standing at a position depends only on the text from there on |
| Tokens.TokensConcat | packages/imap/src/tokenizer.ts:267-401 | tokens of two texts joined at a token boundary are the tokens of both, in order |
| TokenSpelling.TextsExactly | packages/imap/src/tokenizer.ts:267-401 | a text has these tokens if and only if it spells them one behind the other (atoms, numbers, NIL in any case, quoted strings with their escapes, parentheses, brackets, a lone `+`), each where it may stand; it fails if and only if a quoted string that does not end, ends in a backslash or holds a bare LF comes behind such tokens |
| TokenSpelling.WrittenReads | packages/imap/src/tokenizer.ts:267-401 | any list of tokens, spelled with what has to stand between them, tokenizes to that list and what follows |
| ResponseReader.UnfinishedKeeps | packages/imap/src/client.ts:351-393 | the state kept by an unfinished parse resumes correctly on the buffer followed by any bytes at all |
| ResponseReader.NeedIsNeeded | packages/imap/src/client.ts:351-353 | while fewer than `needBytes` have arrived no line can end: the parse that is skipped would have stayed unfinished |
| ResponseReader.ResponseReader.ReadNextResponse | packages/imap/src/client.ts:343-406 | answers the next response of the bytes still to come, however they are cut into chunks, and leaves the bytes behind it; after a failure it repeats the failure and reads nothing |
| ResponseReader.ResponseReader.ParseBuffer | packages/imap/src/client.ts:352-394 | an answer is the one-shot answer and consumes just its line; no answer keeps a state that resumes |
| ResponseReader.Drain | packages/imap/src/client.ts:343-406 | reading to the end answers a function of the concatenated bytes alone: every chunking gives the same responses and the same final failure |
| ResponseReader.FirstResponse | packages/imap/src/client.ts:343-406 | the responses of a stream are its first one and those of the strictly shorter rest, ending with the first refusal |
| Commands.QuotedTokens | packages/imap/src/commands.ts:13-26 | a printable value, escaped and quoted, is one quoted token that carries the value back |
| Commands.IsSafeQuotedString | packages/imap/src/commands.ts:18-26 | the loop accepts exactly the strings of printable ASCII |
| Commands.WriteCommand | packages/imap/src/client.ts:492-511 | on the path that waits for no continuation the writes are the command lines with their literal headers and literals, in order |
| Commands.CommandFrames | packages/imap/src/client.ts:492-511 | whatever follows on the stream, the reader frames a command's bytes as exactly one logical line with its literals as segments |
| MailCommands.AssembledReads | packages/imap/src/commands.ts:65-122 | a command assembled of pieces, quoted or literal, is one line that tokenizes to the tokens of its pieces in order |
| MailCommands.LoginReadsBack | packages/imap/src/commands.ts:65-122 | LOGIN: for every user name and password within the literal limit, one logical line whose tokens are tag, verb and both values byte for byte, in all four quoted and literal forms |
| MailCommands.LoginIsAssembled | packages/imap/src/commands.ts:65-122 | the four branches build the same command as assembling the pieces one by one |
| SearchCommand.BuildUidSearchCommand | packages/imap/src/commands.ts:283-299 | the accumulating loop builds the assembled command |
| SearchCommand.SearchReadsBack | packages/imap/src/commands.ts:263-299 | UID SEARCH: for every list of criteria, one logical line whose tokens are tag, verb, CHARSET exactly when some value needs it, and each key and value in order |
| SearchCommand.DatesAre | packages/imap/src/commands.ts:263-270 | a date is the day, the name of the month and the year in four digits or more, dashes between |
| SearchCommand.MailboxReadsBack | packages/imap/src/commands.ts:140-151 | a mailbox name of any code units, encoded, quoted, framed, tokenized and decoded, is the same name, in SELECT, EXAMINE and CREATE |
| Utf7.EncodeModifiedUtf7 | packages/imap/src/utf7.ts:63-88 | the loop with its flushed buffer equals the recursive encoding by runs |
| Utf7.DecodeModifiedUtf7 | packages/imap/src/utf7.ts:90-116 | the loop over shifts equals the recursive decoding |
| Utf7.EncodeModifiedBase64 | packages/imap/src/utf7.ts:4-42 | three bytes at a time, the six-bit groups of the big-endian code units in the modified alphabet, unpadded |
| Utf7.RunRoundTrip | packages/imap/src/utf7.ts:4-61 | a run of code units comes back from its modified base64 |
| Utf7.EncodeRestPrintable | packages/imap/src/utf7.ts:63-88 | the encoding of any string is printable ASCII |
| Utf7.EncodeDecode | packages/imap/src/utf7.ts:63-116 | decoding undoes encoding for every string of UTF-16 code units, lone surrogates included, and the encoding is printable ASCII |
| Utf7.PlainNameIsSame | packages/imap/src/utf7.ts:63-88 | a printable name without `&` is written unchanged |
| Utf7.PrintableStays | packages/imap/src/utf7.ts:63-88 | printable text goes out as it is, each `&` as `&-`, in front of whatever follows |
| Utf7.RunIsOneShift | packages/imap/src/utf7.ts:63-88 | any other code units between printable text go out as one shift, however many |
| Utf7.PlainDecodes | packages/imap/src/utf7.ts:90-116 | text without `&` decodes to itself, in front of whatever follows |
| Utf7.DecodeUnended | packages/imap/src/utf7.ts:90-116 | a shift that does not end stays as it is |
| Utf7.UndecodableStays | packages/imap/src/utf7.ts:44-116 | a shift with anything else than the alphabet, white space and padding in it stays as it is |
| UidRanges.FindRuns | packages/imap/src/uid-set.ts:15-22 | the loop that grows the last range or begins one computes the runs of the sorted uids |
| UidRanges.RunsMaximal | packages/imap/src/uid-set.ts:15-22 | ranges are ascending, disjoint, and no two could be one |
| UidRanges.RunsCover | packages/imap/src/uid-set.ts:15-22 | a uid is in a range exactly when it was given |
| UidRanges.MaximalUnique | packages/imap/src/uid-set.ts:15-22 | a set of uids has one list of maximal ranges |
| UidRanges.UidSets | packages/imap/src/uid-set.ts:11-35 | the packing loop writes the greedy groups of the ranges |
| UidRanges.PackKeeps | packages/imap/src/uid-set.ts:23-34 | every range is in one set, in order; no set is empty, and one past the bound is a single range |
| UidRanges.PackFewest | packages/imap/src/uid-set.ts:23-34 | no in-order split of the ranges into sets within the bound has fewer sets |
| CopyUid.UidSetsSayUids | packages/imap/src/uid-set.ts:11-35 | the sets written for any uids, each read back as the client reads sets, are those maximal ranges, cover exactly the uids, and stay within the bound unless a single range is past it |
| CopyUid.SetReadsBack | packages/imap/src/client.ts:188-206 | parsing a written set gives its ranges back |
| CopyUid.SetsExactly | packages/imap/src/client.ts:188-206 | a text is a set of these ranges if and only if it is, between commas, for each of them one UID or two in either order with a colon, each from 1 to 2^32 - 1 and without leading zeros |
| CopyUid.UidRangesOf | packages/imap/src/client.ts:195-206 | the parsing loop accepts exactly comma-separated uids and pairs in either order, and gives ascending ranges |
| CopyUid.SizeOf | packages/imap/src/client.ts:210-211 | the size of ranges is the length of the list they stand for |
| CopyUid.PositionOf | packages/imap/src/client.ts:245-253 | the first index of the uid in the expanded list, null exactly when it is not there |
| CopyUid.UidAt | packages/imap/src/client.ts:256-263 | the element of the expanded list at a position, null exactly past its end |
| CopyUid.CopiedUid | packages/imap/src/client.ts:266-269 | the element of the expanded target at the first place of the uid in the expanded source; null exactly when the source lacks it |
| CopyUid.ReadCode | packages/imap/src/client.ts:213-222 | a code is an answer exactly when it is a COPYUID of a uid and two sets that stand for equally many uids |
| CopyUid.CopyUidOf | packages/imap/src/client.ts:229-242 | all answers of a MOVE concatenate into one, or none when there is none or their mailboxes differ |
| CopyUid.MergingKeepsAnswers | packages/imap/src/client.ts:229-269 | looking a uid up in the concatenation is asking the first answer that mentions it |
| CopyUid.MergedAnswers | packages/imap/src/client.ts:213-269 | the merged COPYUID of any codes is well-formed and answers as the first of them that mentions the uid |
| CommandQueue.RunsAreOrderly | packages/imap/src/client.ts:343-1131 | every interleaving of calls, writes that settle and responses, those to a read that a failed DONE overtook included, leaves a log the monitor accepts: one command in flight, each of its texts, literals and awaited continuations in its turn, calls and tags that rise, DONE rules kept, nothing begun on a closed client but for one line |
| CommandQueue.NextAgrees | packages/imap/src/client.ts:343-1131 | each step keeps the agreement between the client and the monitor |
| QueueLogs.OneAtATime | packages/imap/src/client.ts:444-1131 | in an orderly log, until a command or IDLE is over nothing goes out but what carries its tag, and no line begins |
| QueueLogs.LiteralWaits | packages/imap/src/client.ts:492-557 | in an orderly log a literal goes out only behind its header, and, unless LITERAL+ or a length within LITERAL- covers it, behind a continuation that came in between |
| QueueLogs.CommandIsWhole | packages/imap/src/client.ts:492-645 | a command that ended well has put out every line, header, awaited continuation and literal of it, one behind the other |
| QueueLogs.LinesInOrder | packages/imap/src/client.ts:444-483 | lines begin in the order of their calls, and within a call in its order |
| QueueCalls.LinesAreCalled | packages/imap/src/client.ts:444-511 | in every run each line on the wire is a command of some call, of the place and with the literals the call gave it, or a call's IDLE |
| QueueCalls.NextKnows | packages/imap/src/client.ts:408-645 | the client knows the capabilities it was told last (by a good greeting, by what comes while a command waits, by the reply that ends one), and a command begins by what it knows |
| QueueLogs.FurtherNeedsOk | packages/imap/src/client.ts:485-511 | a further command of one call begins only behind the good end of the one before |
| QueueLogs.IdleNeedsDone | packages/imap/src/client.ts:984-1131 | an IDLE ends well only behind its DONE |
| QueueLogs.DoneOnceAfterPlus | packages/imap/src/client.ts:984-999 | DONE goes out at most once for an IDLE, and only behind that IDLE's continuation |
| QueueLogs.NothingAfterClose | packages/imap/src/client.ts:469-478 | once a task closed the client no command line begins |
| ClosedClient.ForeignTagCloses | packages/imap/src/client.ts:622-629 | a reply with another tag closes the client and ends the command, in every state that waits for one, closed or not |
| ClosedClient.ClosesExactly | packages/imap/src/client.ts:525-1116 | a response closes an open client if and only if it ends the session (end of stream, BYE, a tag or continuation out of place) or is the last of a task that closes behind itself |
| ClosedClient.SpareLineExactly | packages/imap/src/client.ts:469-483 | after a DONE write rejected and closed the client, some continuation begins a line if and only if a task has looked at the client and waits at the greeting, and no continuation begins two |
| ClosedClient.SpareLineHappens | packages/imap/src/client.ts:988-999 | that state is reached: a DONE write that rejects after its IDLE was answered, with the next task past its look |
| ClosedClient.ClosedHearsOnce | packages/imap/src/client.ts:344-349 | a closed client takes one more response at most, in any run: the one its read was waiting for |
| QueueLogs.OneLineBehindDone | packages/imap/src/client.ts:988-999 | in an orderly log no second line begins behind a close by DONE |
| QueueLogs.NoLineBehindFlight | packages/imap/src/client.ts:988-999 | nor does a first one, when a command or IDLE was in flight |
| CommandQueue.SendDoneAgrees | packages/imap/src/client.ts:988-999 | whoever calls `done`, and whenever, the log stays orderly |
| CommandQueue.CommandReceivesAgrees | packages/imap/src/client.ts:525-645 | so it does for any response to a command, with or without literals under way |
| CommandQueue.IdleReceivesAgrees | packages/imap/src/client.ts:1025-1116 | so it does for any response to an IDLE |
| QueueProgress.TaskCompletes | packages/imap/src/client.ts:444-645 | from any ready client, taken writes, continuations and OKs bring all commands of a task to a good end |
| QueueProgress.QueueDrains | packages/imap/src/client.ts:444-645 | and so all that wait in the queue, leaving it empty and the client free |
| HandshakeCodec.NamesRoundTrip | packages/tls/src/handshake-messages.ts:154-373 | the list of server names reads back |
| HandshakeCodec.SharesRoundTrip | packages/tls/src/handshake-messages.ts:192-458 | the list of key shares reads back |
| HandshakeCodec.IdentitiesRoundTrip | packages/tls/src/handshake-messages.ts:221-500 | the list of PSK identities reads back |
| HandshakeCodec.BindersRoundTrip | packages/tls/src/handshake-messages.ts:221-520 | the list of binders reads back |
| HandshakeMessages.BodyRoundTrip | packages/tls/src/handshake-messages.ts:136-546 | every extension, in a form its message defines, is what decoding its body under its type gives |
| HandshakeMessages.ExtensionsRoundTrip | packages/tls/src/handshake-messages.ts:136-546 | a list of distinct extensions defined for a message reads back from its length-prefixed encoding |
| HandshakeMessages.MessageRoundTrip | packages/tls/src/handshake-messages.ts:548-924 | decoding undoes encoding for every handshake message whose fields fit, through the nested lists, up to the kept `rawExtensions` |
| HandshakeMessages.ClientHelloRoundTrip | packages/tls/src/handshake-messages.ts:554-757 | the same for the body of a ClientHello |
| HandshakeMessages.CertificateRoundTrip | packages/tls/src/handshake-messages.ts:599-850 | the same for a Certificate and each entry's extensions |
| DecodedForms.ListForm | packages/tls/src/handshake-messages.ts:303-349 | whatever list decodes has distinct types, none already met, each extension in a form its message defines |
| DecodedForms.MessageForm | packages/tls/src/handshake-messages.ts:695-924 | whatever message decodes has the type it was read under, a random of 32 octets, version 0x0303 in a ServerHello, a ticket that is not empty, and such lists of extensions |
| CanonicalForms.BodyBack | packages/tls/src/handshake-messages.ts:136-546 | an extension that decoded is encodable in no more octets, and in the same ones if and only if they hold host names alone, padding of zeros, and an early_data of no or four octets |
| CanonicalForms.ListBack | packages/tls/src/handshake-messages.ts:136-349 | the same of a list |
| CanonicalForms.MessageBack | packages/tls/src/handshake-messages.ts:548-924 | every message that decodes can be encoded, and gives the octets that were read if and only if its extensions are there and canonical; a Certificate always does |
| CanonicalForms.ExtensionCodes | packages/tls/src/wire.ts:166-180 | the two octets that name each extension on the wire |
| CanonicalForms.MessageCodes | packages/tls/src/wire.ts:23-35 | the octet that names each message, encoded or decoded, both directions |
| HandshakeLoops.ReadExtensions | packages/tls/src/handshake-messages.ts:303-546 | the offset loop with its set of seen types decodes what the recursive decoder does, with the same alert |
| HandshakeLoops.ReadEntries | packages/tls/src/handshake-messages.ts:805-850 | the offset loop over certificate entries decodes what the recursive decoder does |
| HandshakeLoops.ReadU16s | packages/tls/src/handshake-messages.ts:374-384 | the offset loop over two-octet values decodes what the recursive decoder does |
| HandshakeLoops.ReadNames | packages/tls/src/handshake-messages.ts:351-373 | the offset loop over server names decodes what the recursive decoder does |
| HandshakeLoops.ReadShares | packages/tls/src/handshake-messages.ts:429-458 | the offset loop over key shares decodes what the recursive decoder does |
| HandshakeLoops.ReadIdentities | packages/tls/src/handshake-messages.ts:466-500 | the offset loop over PSK identities decodes what the recursive decoder does |
| HandshakeLoops.ReadBinders | packages/tls/src/handshake-messages.ts:500-520 | the offset loop over binders decodes what the recursive decoder does |
| ProductionHello.EncodeProductionClientHello | packages/tls/src/handshake-messages.ts:984-1065 | the ClientHello is the offered extensions in order, padded in front of a PSK when its unpadded length is in range |
| ProductionHello.NeverInRange | packages/tls/src/handshake-messages.ts:979-1065 | no ClientHello has a length from 256 to 511 |
| ProductionHello.HelloReadsBack | packages/tls/src/handshake-messages.ts:984-1065 | it decodes to what was meant: version, suites and no compression, every extension offered once with its value, nothing else but padding, and a PSK, if offered, as the last extension with its identity and room for its binder |
| ProductionHello.BinderIsTail | packages/tls/src/handshake-messages.ts:969-1065 | with a PSK the message ends in the binder list, of the length that is cut off to bind it |
| TlsRecord.ContentCodes | packages/tls/src/wire.ts:1-8 | the octet that says what a record holds, both ways |
| TlsRecord.BuildNonce | packages/tls/src/record.ts:101-117 | the loop xors the 64-bit sequence number onto the last eight octets of a 12-octet IV, and refuses any other |
| TlsRecord.NonceInjective | packages/tls/src/record.ts:101-117 | under one IV two sequence numbers below 2^64 never share a nonce |
| TlsRecord.NonceIs | packages/tls/src/record.ts:101-117 | the nonce begins as the IV does; its last eight octets, exclusive or those of the IV bit by bit, write the sequence number in big-endian order |
| TlsRecord.SealOpen | packages/tls/src/record.ts:119-279 | what one side seals the other opens under the same keys and sequence number, padding included, exactly when the inner plaintext is within 2^14 + 1 octets |
| TlsRecord.InnerRoundTrip | packages/tls/src/record.ts:249-279 | stripping the padding gives content type and payload back, also for payloads that end in zeros |
| TlsRecord.StripPadding | packages/tls/src/record.ts:254-279 | the backward loop finds the last octet that is not zero |
| TlsRecord.RecordReader.ReadRecord | packages/tls/src/record.ts:300-338 | reads the first record of the bytes still to come, however they are cut into chunks, and takes off exactly that |
| PlainRecords.ClientHelloArrives | packages/tls/src/handshake.ts:271-278 | a ClientHello of any length, cut into records, is read back whole |
| TlsSealing.Sealer.WritePlaintext | packages/tls/src/handshake.ts:1408-1463 | `write` in its own form does what the sealing specification says: the records sealed, the keys moved, the bytes delivered |
| TlsSealing.Sealer.WriteData | packages/tls/src/handshake.ts:1447-1460 | the data loop seals the plaintext in order, 2^14 octets a record, and the alert's copy of the keys follows each |
| TlsSealing.Sealer.CloseConnection | packages/tls/src/handshake.ts:1465-1491 | the same for `close`, which sends one close_notify |
| TlsSealing.Sealer.PayKeyUpdateResponse | packages/tls/src/handshake.ts:1189-1214 | the same for an owed KeyUpdate: the keys move only once the transport took it |
| TlsSealing.Sealer.RekeyIfDue | packages/tls/src/handshake.ts:1423-1444 | the same for the rekey at 2^24 records, whose copy of the keys does not follow |
| TlsSealing.Sealer.SendFatalAlert | packages/tls/src/handshake.ts:348-372 | a fatal alert takes its number from the copy and moves only the copy |
| TlsSealing.Sealer.OweKeyUpdate | packages/tls/src/handshake.ts:1398-1400 | a request of the peer leaves a KeyUpdate owed and changes nothing else |
| SealingSafety.SealsNeverRepeat | packages/tls/src/handshake.ts:1145-1491 | from a fresh connection, whatever the transport refuses, any interleaving of writes, KeyUpdate requests and a close seals no (generation, sequence number) pair twice; the first fatal alert behind it repeats none if and only if the last step that moved the keys or their copy did not leave the copy behind |
| SealingSafety.WithoutAlerts | packages/tls/src/handshake.ts:1408-1491 | with no fatal alert, whatever the transport refuses and whatever is written, no pair is sealed twice |
| SealingSafety.StepMirrors | packages/tls/src/handshake.ts:1166-1491 | the alert's copy stands with the application keys after a step if and only if the step's data, taken KeyUpdate or close_notify brought it there, or the step moved neither and it stood there before |
| SealingSafety.GuardIsExact | packages/tls/src/handshake.ts:1408-1491 | the same if and only if, from any state in which every pair is used once and the copy stands with the keys |
| SealingSafety.AlertIsLast | packages/tls/src/handshake.ts:363-367 | behind a fatal alert a run without another one leaves every pair used once if and only if the copy stood with the keys and the run seals nothing |
| SealingSafety.NoncesNeverRepeat | packages/tls/src/record.ts:101-117 | distinct pairs are distinct nonces under each generation's key |
| KeyLimits.KeysAreRetired | packages/tls/src/handshake.ts:1423-1460 | whatever is called and whatever the transport refuses, no record takes a sequence number past 2^24, the records of the longest write and the refusals together |
| TlsReading.Reader.ReadNext | packages/tls/src/handshake.ts:1217-1406 | `read` with its nested loops answers what the reading specification says of the bytes still to come, and leaves the state it says, for every chunking |
| TlsReading.Reader.ReadOne | packages/tls/src/handshake.ts:1226-1301 | one record: its checks in order, its sequence number, and what its content does |
| TlsReading.Reader.ExtractNext | packages/tls/src/handshake.ts:305-318 | a whole message of at most 65536 octets comes off the put-together fragments, the rest stays |
| TlsReading.TurnIsPaid | packages/tls/src/handshake.ts:161-173 | every turn of the loop is paid for by a ceiling, by an octet of a message, or was a handshake fragment without content |
| TlsReading.ReadIsBounded | packages/tls/src/handshake.ts:1217-1406 | whatever the peer sends, one `read` takes at most 4325678 records beside handshake fragments without content, and the next call has the same bound |
| PeerReading.PeerRead | packages/tls/src/handshake.ts:1217-1406 | over any stream of data, empty data, `user_canceled` and handshake fragments that split or share records (tickets, KeyUpdates with and without request), reads deliver just the data, each record moving its own counter and the keys, and then answer the end: a cut stream, a close, another alert as itself, and with its own alert what cannot be read or opened, may not stand between fragments or at all, or is a message too long, malformed or out of place; past a ceiling they end in a refusal |
| PeerReading.FreshRead | packages/tls/src/handshake.ts:1217-1406 | the same from a fresh connection, where an answer is owed if and only if some KeyUpdate taken asked for one |
| PeerReading.OwedExactly | packages/tls/src/handshake.ts:1356-1402 | an answer is owed behind any records if and only if it was before or one of them asked |
| TlsStream.HollowIsUnbounded | packages/tls/src/handshake.ts:1301-1332 | the exception is exact: a read takes as many fragments without content as are sent |
| TlsStream.RunCarries | packages/tls/src/handshake.ts:1189-1491 | every run of the write path without a fatal alert makes a log that keeps generation and sequence number, has nothing behind the close and carries just what was written; it holds no 33 KeyUpdates in a row if and only if the run is paced: no request answered and no rekey past the 32nd since the last write that was not empty |
| TlsStream.NoEmptyWriteIsPaced | packages/tls/src/handshake.ts:1420-1444 | a run without empty writes is paced |
| TlsStream.ReadsInStep | packages/tls/src/handshake.ts:1217-1406 | over any prefix of such a log's bytes any number of reads stays on the peer's generation and sequence number, delivers the data of the records taken, and fails only where the stream stops or at the 33rd KeyUpdate in a row |
| TlsStream.EndToEnd | packages/tls/src/handshake.ts:1189-1491 | against a peer that runs the write path on mirrored secrets, under any cut of the stream, the data read is a prefix of what was written and `closed` comes only behind all of it, both sides in step; a paced run is never refused |
| TlsStream.AllArrives | packages/tls/src/handshake.ts:1189-1491 | when all bytes arrive, enough reads deliver all that was written and then the close, if there was one, exactly for paced runs; any other run is refused |
| TlsStream.EmptyWritesAreRefused | packages/tls/src/handshake.ts:1420-1444 | such runs exist: a peer that answers requests with empty writes is refused if and only if there are more than 32 |
| HandshakeFlight.FlightExactly | packages/tls/src/handshake.ts:841-1050 | the loop completes on a transcript if and only if the messages are EncryptedExtensions, CertificateRequests, Certificate, CertificateVerify, Finished (or EncryptedExtensions, Finished when resumed), each with its checks, and nothing is left behind them |
| FlightRefusals.RefusedExactly | packages/tls/src/handshake.ts:841-1050 | the flight ends in this alert if and only if, behind messages that may come, one is wrong for that reason: undecodable, out of order, the first extension out of place, no certificate, a scheme not offered, no path, a leaf or signature that does not hold, a wrong MAC, something left behind the Finished |
| HandshakeFlight.FlightNotes | packages/tls/src/handshake.ts:841-1050 | a finished run noted the scheme and pin of its own Certificate and CertificateVerify, and the context of the last CertificateRequest |
| HandshakeFlight.MisplacedIs | packages/tls/src/handshake.ts:221-232 | no alert exactly when every extension answers an offer and may stand where it stands |
| HandshakeHello.HelloIsAgreement | packages/tls/src/handshake.ts:522-792 | an agreement is one ServerHello, or one HelloRetryRequest and then a ServerHello of its suite; ClientHello1 is replaced by its hash under that suite in the second case and only then; a session is taken only if it was offered and has the suite's hash |
| HelloExactness.HelloExactly | packages/tls/src/handshake.ts:522-792 | the loop ends in this agreement behind n messages if and only if they are a valid ServerHello, or a valid HelloRetryRequest and then a valid ServerHello, nothing left behind either, with validity said of the decoded messages: no compression, session id echoed, no downgrade sentinel, 0x0304, extensions offered and in place, an offered suite (the retry's), the shared group and a key of its form, a new offered group or a cookie within 16384, and the PSK answer |
| HelloRefusals.DeniedExactly | packages/tls/src/handshake.ts:522-792 | the loop ends in this alert if and only if the first message, or the one behind a valid retry, is wrong for that reason, in the order things are looked at: undecodable, no ServerHello, compression, session id or sentinel, version, the first extension out of place, suite; then group, cookie or leftovers of a retry, or PSK answer, share, leftovers and key |
| Handshake.SuccessIsHandshake | packages/tls/src/handshake.ts:522-1145 | every success consists of such hellos and such a flight, a Finished over exactly the messages exchanged in order, and a peer authenticated by a validated path and an offered scheme, or by the session re-checked |
| HandshakeExactness.HandshakeExactly | packages/tls/src/handshake.ts:522-1145 | the client ends connected, on this agreement, pin and transcript, if and only if the messages at the front of the two streams are a whole handshake: such hellos, EncryptedExtensions, requests, a Certificate whose chain is its entries in order with a path, a signature and a Finished over all before it, and the client's empty Certificate, if asked, and Finished over the whole transcript before it |
| HandshakeExactness.CertificateExactly | packages/tls/src/handshake.ts:940-965 | a Certificate is taken for a chain if and only if its first entry is the leaf, the others the intermediates in order, and every entry's extensions were offered and may stand there |
| HandshakeRun.Transcript.ReplaceClientHello1WithMessageHash | packages/tls/src/transcript.ts:19-38 | replaces the first message by its hash message once, and changes nothing otherwise |
| HandshakeRun.RebindTranscript | packages/tls/src/handshake.ts:262-268 | the same messages under another suite |
| HandshakeRun.Incoming.NextMessage | packages/tls/src/handshake.ts:305-318 | the next whole message of the fragments, and what stays behind it |
| HandshakeRun.ServerFlight.Run | packages/tls/src/handshake.ts:841-1050 | the loop over its flags and its transcript object ends as the flight specification says |
| HandshakeRun.ServerFlight.TakeMessage | packages/tls/src/handshake.ts:908-1021 | one message before the Finished: the alert, or the state that goes on |
| HandshakeRun.ClientHellos.Run | packages/tls/src/handshake.ts:522-792 | the ServerHello loop over its variables and its transcript object ends as the hello specification says |
| HandshakeRun.ClientHellos.AnswerRetry | packages/tls/src/handshake.ts:646-737 | a HelloRetryRequest: the alert, or the transcript with both new messages |
| ScalarMult.ModInverse | packages/tls/src/key-share.ts:30-41 | ends for all operands; answers the inverse in 0..m-1 when they are coprime, and otherwise divides by zero, but for k = 0, which it answers with 1 |
| ScalarMult.GcdGreatest | packages/tls/src/key-share.ts:30-41 | the condition is the greatest common divisor: it divides both, and whatever divides both divides it |
| ScalarMult.EcScalarMult | packages/tls/src/key-share.ts:91-119 | given that the Jacobian operations realise a commutative group, the loop ends on the k-fold sum of the generator, and the answer is its affine coordinates |
| ScalarMult.OneBit | packages/tls/src/key-share.ts:101-107 | each bit keeps the sum of what was added and what is to come |
| CurveFormulas.DoubleIsTangent | packages/tls/src/key-share.ts:75-89 | for every point given by affine coordinates modulo p, doubling gives the point where the tangent meets y^2 = x^3 - 3x + b again, with an invertible Z |
| CurveFormulas.AddIsChord | packages/tls/src/key-share.ts:45-73 | adding two points apart gives the point where their chord meets the curve again, with an invertible Z |
| CurveFormulas.AddIsDouble | packages/tls/src/key-share.ts:60-63 | points of one x are doubled if their y agree, and cancel to infinity otherwise |
| ScalarMult.ToAffineIs | packages/tls/src/key-share.ts:113-118 | multiplying by the powers of the inverse divides by the powers of Z |
| ScalarMult.RemainderIs | packages/tls/src/key-share.ts:28 | the remainder of a truncating division, put into range, is the mathematical one for negative operands too |
| SmtpData.DotStuff | packages/smtp/src/client.ts:85-111 | the two passes fill the buffer to its last octet with the stuffed lines, a line end if the data lacked one, and the terminator |
| SmtpData.DataArrives | packages/smtp/src/client.ts:85-111 | a server has the data back as whole lines, at the terminator, if and only if no dot stands behind a line feed it does not take for a line end and the data does not end in one |
| SmtpData.NothingEndsEarly | packages/smtp/src/client.ts:85-111 | no proper prefix of the stuffed message ends it, for strict and lenient servers alike |
| SmtpClient.Smtp.SendMessage | packages/smtp/src/client.ts:222-289 | `send` in its own form does what the sending specification says |
| SmtpClient.Smtp.SendData | packages/smtp/src/client.ts:246-288 | body, then terminator, then the answer, with the flag set where the state is unknown |
| SmtpDialogue.SendExactly | packages/smtp/src/client.ts:222-289 | `send` succeeds if and only if the call is in order, every write is taken, and the replies are 250, then 250, 251 or 252 for each recipient, 354 and a 2xx; the wire has then grown by MAIL FROM, one RCPT TO for each recipient in order, DATA, the body and the terminator |
| SmtpDialogue.SendStops | packages/smtp/src/client.ts:222-289 | the first exchange that does not pass ends the call with the code that refused it, and nothing that comes later is on the wire |
| SmtpClient.SendIsHonest | packages/smtp/src/client.ts:217-289 | a failure that is neither `unconfirmed` nor a 4xx or 5xx answer to the terminator leaves every server without an end of message; success means all of it was sent |
| SmtpClient.SuccessDelivers | packages/smtp/src/client.ts:222-289 | on success any server has the data back |
| SmtpClient.NothingAfterDoubt | packages/smtp/src/client.ts:140-156 | after `unconfirmed`, or a message that broke off, no later call adds an octet |
| SmtpClient.SafeLinesAreOne | packages/smtp/src/client.ts:51 | a safe address cannot end its command line early |
| QuotedPrintable.PrintText | packages/smtp/src/message.ts:60-92 | the loops write the specified lines |
| QuotedPrintable.BreakLine | packages/smtp/src/message.ts:77-88 | the cutting loop puts a soft break at 75 or before the escape it would split |
| QuotedPrintable.PrintedDecodes | packages/smtp/src/message.ts:57-92 | for every text a decoder of RFC 2045 gives the UTF-8 of the text with CRLF line ends |
| QuotedPrintable.PrintedLines | packages/smtp/src/message.ts:57-92 | no line of the output is over 76 characters or ends in white space |
| QuotedPrintable.LineEndsAre | packages/smtp/src/message.ts:57 | every LF, with one CR in front of it or none, becomes a CRLF, and nothing else changes |
| QuotedPrintable.SoftLinesAreFull | packages/smtp/src/message.ts:77-88 | a line with a soft break has 74 to 76 characters |
| QuotedPrintable.CutIsBoundary | packages/smtp/src/message.ts:77-88 | each cut falls between two octets and leaves some of them |
| EncodedWords.EncodeWords | packages/smtp/src/message.ts:174-186 | the loop writes the specified words |
| EncodedWords.WordsAreShort | packages/smtp/src/message.ts:172-186 | the words carry the whole text, none is over 75 characters and none splits a character |
| EncodedWords.WordsAreFull | packages/smtp/src/message.ts:172-186 | a word ends only where the next character would take it past 45 octets |
| EncodedWords.DecodeRfc2047 | packages/imap/src/rfc2047.ts:59-195 | the nested loops over matches, runs and charsets decode what the specification says |
| EncodedWords.DecodeQToBytes | packages/imap/src/rfc2047.ts:14-35 | the Q loop decodes underscores, escapes and anything else as specified |
| HeaderReading.WordsExactly | packages/imap/src/rfc2047.ts:12 | the search finds a word at a position if and only if one stands there |
| HeaderReading.PlainDecodes | packages/imap/src/rfc2047.ts:59-195 | a header with no encoded-word in it decodes to itself |
| HeaderReading.HeaderDecodes | packages/imap/src/rfc2047.ts:59-195 | a header of plain stretches and runs of encoded-words, B or Q, in any charsets, decodes to the stretches as they are and, for each run, the text of its groups of one charset; white space is dropped between adjacent words only, and raw words stay where the charset or the base64 fails |
| HeaderReading.QUndone | packages/imap/src/rfc2047.ts:14-35 | decoding undoes every Q encoding of octets that section 4.2 of RFC 2047 allows, each octet in any of its forms |
| EncodedRoundTrip.EncodedWordsRoundTrip | packages/imap/src/rfc2047.ts:59-195 | for every string of code units, decoding its encoded-words gives it back with lone surrogates as U+FFFD and without a U+FEFF at its front; so the string itself if and only if it is well-formed and does not begin with U+FEFF |
| EncodedRoundTrip.HeaderTextRoundTrip | packages/smtp/src/message.ts:188-205 | the same of `encodeHeaderText` for texts that are not printable ASCII; for the others, unfolding gives the text back if and only if no fold lost a space |
| HeaderFolding.EncodeHeader | packages/smtp/src/message.ts:204-205 | printable ASCII is folded, any other text goes as encoded-words |
| HeaderFolding.FoldHeader | packages/smtp/src/message.ts:189-202 | the folding loop writes the specified lines |
| HeaderFolding.FoldedIsShort | packages/smtp/src/message.ts:188-202 | no folded line is over 76 characters, unless it is one word |
| HeaderFolding.FoldsOnlyWhenFull | packages/smtp/src/message.ts:188-202 | a text is folded only where the next word would take the line past 76 characters |
| HeaderFolding.FoldingKeepsText | packages/smtp/src/message.ts:188-202 | unfolding a folded text gives it back if and only if it does not begin with a space and no fold falls between two |
| Base64.DecodeEncode | packages/imap/src/rfc2047.ts:37-48 | the forgiving decoder undoes base64 |
| Base64.DecodesExactly | packages/imap/src/rfc2047.ts:37-48 | white space aside, `atob` answers if and only if the text is base64, padded or not, with no sextet left over, and then the octets of its sextets |
| Base64.GroupsAreNumbers | packages/imap/src/rfc2047.ts:37-48 | three octets and their four sextets write the same number, fewer the same with zeros behind |
| Utf8.PointIs | packages/smtp/src/message.ts:172-186 | each code point takes the fewest octets, the first saying how many and the others six bits each, and is the number those bits write |
| DnsNames.MatchedShape | packages/x509/src/names.ts:30-41 | a host a wildcard matches is one dotless label in front of the wildcard's suffix |
| DnsNames.MatchesExactly | packages/x509/src/names.ts:30-41 | a plain name matches exactly its own hostname in any letter case, and a wildcard exactly the hostnames one label that is no A-label in front of its suffix, when that is a hostname of two labels or more and not an A-label itself |
| DnsNames.HostnamesAre | packages/x509/src/names.ts:16-28 | a hostname is up to 253 letters, digits, dashes and dots, with no dot or dash at an end or beside a dot and no 64 in a row without a dot |
| DnsNames.WithinExactly | packages/x509/src/names.ts:113-125 | a name is within a DNS subtree if and only if the subtree is empty, or the name is a hostname whose last labels are the subtree's, in any letter case; the answer is unclear exactly for a leading dot |
| DnsNames.MatchedVerdict | packages/x509/src/names.ts:113-139 | whatever a DNS name can authenticate is inside a permitted subtree, and outside an excluded one, that the name was judged inside or outside of |
| DnsNames.PermittedIsExact | packages/x509/src/names.ts:127-139 | a permitted subtree takes a wildcard if and only if every host it matches is inside |
| DnsNames.ExclusionIsExact | packages/x509/src/names.ts:127-139 | some host of a wildcard is inside a subtree if and only if its suffix is, or it matches the subtree's own name |
| DnsNames.ExclusionOverreaches | packages/x509/src/names.ts:127-139 | the excluded test refuses a wildcard that has no host in the subtree if and only if the subtree's name is a hostname below the wildcard's suffix that the wildcard does not match |
| DnsNames.TwoLabelsBelow | packages/x509/src/names.ts:127-139 | every wildcard with room for it has such a subtree, two labels below its suffix |
| NameConstraints.ViolatesConstraints | packages/x509/src/names.ts:296-328 | the loops over names, excluded subtrees and grouped levels, with their budget, refuse exactly what the decision procedure refuses |
| NameConstraints.GroupByKind | packages/x509/src/names.ts:302-305 | groups hold the subtrees of each kind in their order, and no empty group |
| NameConstraints.AcceptsExactly | packages/x509/src/names.ts:292-328 | names are accepted if and only if no excluded subtree takes one, every level permits each, and the comparisons stay within 250000 |
| NameConstraints.AddingNeverLoosens | packages/x509/src/names.ts:275-287 | constraints further down a chain can only narrow what is accepted |
| NameConstraints.AllowedAfterAdding | packages/x509/src/names.ts:275-287 | permitted subtrees intersect and excluded ones add up |
| NameConstraints.WildcardsAreSound | packages/x509/src/names.ts:113-328 | when the names of a certificate are accepted, so is every list with DNS names, wildcards or not, replaced by hosts they match, on the same budget |

## Left out

- `rawText` of a logical line and the texts of failures: only their kinds and positions are kept.
- `parseResponse`: a parameter of the reader; what responses mean is not modelled.
- `TextDecoder('ascii')` on token values: they stay bytes.
- Synchronizing literals on the wire: the byte-level theorems are about the path that waits for no continuation; `CommandQueue` and `QueueLogs` have the waiting path, with the pieces of a command by number and literal length instead of bytes.
- AUTHENTICATE PLAIN, APPEND, FETCH and STORE: their command lines are made of the words, quoted strings and literals that LOGIN, UID SEARCH and SELECT are; the SASL bytes and dates with times inside them are not modelled.
- Server names in a ClientHello: kept as the UTF-8 the wire carries.
- The truncated ClientHello a binder is computed over, `decodeHandshakeMessages`, and the replay hooks for RFC 8448: test support.
- WebCrypto, HKDF, HMAC, signatures, key generation: functions of the environment; sealing and opening have the law that opening undoes sealing, and every ciphertext is 16 octets longer.
- X.509 decoding and path validation, address, mailbox, directory and URI names: `decodeDer` and the validator are not part of this model; `NameConstraints` takes the other forms' comparisons as a parameter.
- Session tickets: they are counted; deriving and storing a session is not modelled, nor is `isSessionOfferable`.
- The handshake's record loops: whole messages come out of fragments; alerts, ChangeCipherSpec records and the ceiling on them during the handshake are not modelled. The ServerHello loop has no ceiling there.
- Runs with more than one fatal alert: `SealingSafety.AlertIsLast` says what is left of the property behind the first.
- The order in which `read` and the write queue interleave: `read` touches the write side only by setting a flag, which is a step of its own in `TlsSealing`.
- Aliasing of chunk buffers and subarrays: buffers are values.
- Timers and promises: a timeout is one outcome of a wait; microtask order is modelled only as far as IDLE's `finally` comes after its task.
- Exceptions a transport's `read` throws inside an SMTP command: they count as an unreadable reply.
- SMTP replies: codes and lines; reading them off the stream and the EHLO keywords are parameters.
- Printable ASCII headers that look like encoded-words: they are written as they are and decoded on reading.
- `toLowerCase` on charset names: ASCII letters only.
- Sizes beyond 2^53 in COPYUID arithmetic: integers are unbounded.
- `buildMessageParts`, `spliceMessage`, multipart bodies, mailboxes, dates and file names: how a message is put together is not modelled, only how its texts are encoded.
- The group law of the curves: that tangent and chord make an associative addition is taken as given by `ScalarMult.EcScalarMult`; that the Jacobian formulas are tangent and chord is proved in `CurveFormulas`.
- TlsReading.ReadIsBounded: the bound does not count handshake fragments without content, because the code has no ceiling on them.
- SearchCommand.SearchReadsBack: values are within the reader's literal limit and dates are three numbers, because `formatImapDate` works on a `Date`.
- HandshakeMessages.MessageRoundTrip: messages with repeated extensions, or with extensions in a form their message does not define, are excluded, because the decoder refuses or keeps them unparsed.
