# mailtools in Dafny

A model of the `mailtools` package of a Python mail client, together with
two small helpers from its CGI web scripts. The package has three parts:

- `MailFetcher` downloads, deletes and checks mail on a POP server.
- `MailParser` walks, names, decodes and searches parsed messages.
- `MailSender` composes messages with encoded headers and attachments,
  sends them and logs them to a sent-mail file.

The two CGI helpers are `formMockup`, which builds a stand-in for a
submitted form, and `splitPath`, which the upload script uses to pick a
saved file name.

Outside the model, the code leans on the Python library. Each of those
calls becomes an explicit, total parameter:

- **Python's `email` and `mimetypes` packages** are the `EmailLib` record
  of functions in `email_package.dfy`. It covers message parsing, header
  decoding and building, address splitting and formatting, extension and
  type guessing, Base64 and `as_string`. Messages are the `Part` tree, and
  outgoing mail is `Outgoing`.
- **`bytes.decode`** is a `Codec`, a function from bytes and an encoding
  name to a decoded text. `None` stands for a `UnicodeError` or a
  `LookupError`.
- **The POP server** is the `Mailbox` class. It holds the maildrop and the
  numbers marked in the session. `QUIT` removes the marked messages, as in
  the UPDATE state of section 6 of RFC 1939. Each fetcher operation runs in
  a fresh session.
- **The SMTP server** is an `Smtp` function. It either refuses the session
  or returns the refused recipients.
- **Other inputs**:
  - The date is a `date` parameter.
  - The files on disk are a map from path to bytes.
  - Whether the sent-mail file can be written is the `writable` flag.
  - The configuration values are constructor parameters or constants.
  - The progress callback becomes a returned sequence of its arguments.

Where the code and its docstrings disagree, the model follows the code:

- `deleteMessagesSafely` looks up `synchHdrs[msgnum - 1]`. That is a
  full-index lookup, not the per-selection list the docstring describes.
- `list(set(...))` yields its items in an order the code does not fix. The
  fetcher takes its candidate encodings as a parameter: `kinds`, any
  duplicate-free enumeration of the set.

Modules:

| module | file |
|---|---|
| `Wrappers` | `wrappers.dfy` |
| `Strings` | `strings.dfy` |
| `Codec` | `codec.dfy` |
| `EmailPackage` | `email_package.dfy` |
| `Parser` | `mail_parser.dfy` |
| `Fetcher` | `mail_fetcher.dfy` |
| `Sender` | `mail_sender.dfy` |
| `FormMockup` | `form_mockup.dfy` |
| `PutFile` | `putfile.dfy` |

## Model

| member | source | states |
|---|---|---|
| Codec.DecodeAll | PyEmail/mailtools/mailFetcher.py:69-74 | The lines decode under an encoding exactly when every line decodes, line by line and in order. |
| Codec.FirstDecodable | PyEmail/mailtools/mailFetcher.py:69-74 | The index of the first encoding under which all the lines decode: every earlier one fails and this one works. |
| Codec.FirstBlank | PyEmail/mailtools/mailFetcher.py:78 | The index of the first empty line, or the line count when there is none. |
| Codec.FullTextUsesFirstWorkingKind | PyEmail/mailtools/mailFetcher.py:62-74 | When some candidate encoding decodes the message, decoding succeeds with the first candidate that works and keeps one text line per line. |
| Codec.DecodingOrderIrrelevantForUniqueKind | PyEmail/mailtools/mailFetcher.py:67 | When only one candidate encoding works, the order `set()` gives the candidates does not change the result. |
| Codec.Latin1LeavesNoUndecodableMail | PyEmail/mailtools/mailFetcher.py:62-74 | With latin1 among the candidates and decoding every byte string, every message decodes with the first working candidate. |
| Codec.HeaderFallbackShape | PyEmail/mailtools/mailFetcher.py:80-91 | The fallback headers are the header lines decoded by one of ascii, latin1, utf8 or utf-8, or else the single unknown-sender line. |
| Codec.UndecodableMailShape | PyEmail/mailtools/mailFetcher.py:76-92 | A mail no candidate decodes fails with ValueError exactly when it has no blank line; otherwise it becomes the fallback headers, a blank line and the apology line. |
| Fetcher.ExpungedNothing | PyEmail/mailtools/mailFetcher.py:201 | Quitting a session with no number of the box marked leaves the maildrop unchanged. |
| Fetcher.ExpungedOne | PyEmail/mailtools/mailFetcher.py:242-244 | Quitting after marking message k removes exactly that message and keeps the others in order. |
| Fetcher.Mailbox.constructor | PyEmail/mailtools/mailFetcher.py:124 | A session opens with the maildrop as it is and nothing marked. |
| Fetcher.Mailbox.Stat | PyEmail/mailtools/mailFetcher.py:166 | STAT reports the number of messages. |
| Fetcher.Mailbox.List | PyEmail/mailtools/mailFetcher.py:126-129 | LIST reports each message's size in order. |
| Fetcher.Mailbox.Top | PyEmail/mailtools/mailFetcher.py:141 | TOP n 0 gives the header lines of a live message; an out-of-range or marked number is refused with an error. |
| Fetcher.Mailbox.Retr | PyEmail/mailtools/mailFetcher.py:177 | RETR n gives the lines and octet count of a live message and refuses any other number. |
| Fetcher.Mailbox.Dele | PyEmail/mailtools/mailFetcher.py:242 | DELE marks a live number and succeeds; any other number is refused and the marks are unchanged. |
| Fetcher.Mailbox.Quit | PyEmail/mailtools/mailFetcher.py:243-244 | QUIT removes every marked message and ends with nothing marked. |
| Fetcher.MailFetcher.constructor | PyEmail/mailtools/mailFetcher.py:31-35 | The fetcher keeps the TOP flag, the fetch limit, the encodings and the candidate order it is given. |
| Fetcher.MailFetcher.TryEncodings | PyEmail/mailtools/mailFetcher.py:80-86 | Tries the encodings in order and returns the lines decoded by the first that decodes them all, or nothing. |
| Fetcher.MailFetcher.DecodeFullText | PyEmail/mailtools/mailFetcher.py:51-93 | Equals the full-text decoding, whose properties are the Codec lemmas above. |
| Fetcher.MailFetcher.DownloadMessage | PyEmail/mailtools/mailFetcher.py:95-108 | The decoded text of message n joined by newlines, a refusal for a number not on the server, or ValueError when the text cannot be decoded. |
| Fetcher.MailFetcher.FetchHeader | PyEmail/mailtools/mailFetcher.py:135-143 | One loop step of downloadAllHeaders: the skipped placeholder below the fetch limit, else the decoded TOP text. |
| Fetcher.MailFetcher.DownloadAllHeaders | PyEmail/mailtools/mailFetcher.py:111-152 | With TOP, one progress report per message tried; on success, one header entry per message from loadfrom on, the sizes from loadfrom, and loadedFull equal to a nonzero limit; on failure, the error of the first failing message. Without TOP, the downloadAllMessages outcome. |
| Fetcher.MailFetcher.FetchMessage | PyEmail/mailtools/mailFetcher.py:172-180 | One loop step of downloadAllMessages: the skipped placeholder and its length, else the decoded text and the octet count RETR reports. |
| Fetcher.MailFetcher.DownloadAllMessages | PyEmail/mailtools/mailFetcher.py:154-184 | One progress report per message tried; on success, the text and size of every message from loadfrom on; on failure, the error of the first failing message. |
| Fetcher.MailFetcher.DownloadAllHeadersAsWritten | PyEmail/mailtools/mailFetcher.py:144-146 | As written, with TOP, the call to the missing unlock method turns every outcome into AttributeError. |
| Fetcher.MailFetcher.DownloadAllMessagesAsWrittenFails | PyEmail/mailtools/mailFetcher.py:179-180 | As written, every download that starts at a message on the server fails: the limit never skips the last message, and the length of its integer octet count is taken. |
| Fetcher.MailFetcher.DownloadNeverFailsDecoding | PyEmail/mailtools/mailFetcher.py:62-74 | With latin1 decoding every byte string, downloading any message on the server gives its lines decoded by the first working candidate. |
| Fetcher.NonStatus | PyEmail/mailtools/mailFetcher.py:297-304 | Keeps exactly the lines that are not Status: lines. |
| Fetcher.MessageIds | PyEmail/mailtools/mailFetcher.py:307-311 | Keeps exactly the Message-Id lines. |
| Fetcher.HeadersMatchReflexive | PyEmail/mailtools/mailFetcher.py:292-294 | Every header text matches itself. |
| Fetcher.StatusLinesIgnored | PyEmail/mailtools/mailFetcher.py:297-304 | Header texts built from TOP (the header lines, then the blank line) match when the lines differ only in their Status: lines. |
| Fetcher.MessageIdsIgnoreStatus | PyEmail/mailtools/mailFetcher.py:297-311 | Removing the Status: lines keeps the Message-Id lines. |
| Fetcher.DifferentMessageIdsNeverMatch | PyEmail/mailtools/mailFetcher.py:307-311 | Texts whose Message-Id lines differ never match. |
| Fetcher.CommonHeadersDecide | PyEmail/mailtools/mailFetcher.py:314-327 | Once the first two tests do not decide, two texts match exactly when all seven common headers agree. |
| Fetcher.HeadersMatchSymmetric | PyEmail/mailtools/mailFetcher.py:282-327 | Whether two texts match does not depend on their order. |
| Fetcher.DeletionRunPrefix | PyEmail/mailtools/mailFetcher.py:196-199 | A deletion loop marks a prefix of its numbers; it passes exactly when it marks them all, and otherwise fails with the check of the first number it did not mark. |
| Fetcher.DeletionRunChecked | PyEmail/mailtools/mailFetcher.py:231-242 | Every number the loop marks passed its check against the marks made before it. |
| Fetcher.UnsafeDeletionFailsOnlyOnRefusal | PyEmail/mailtools/mailFetcher.py:199 | Plain deletion stops only when the server refuses a number that is not live. |
| Fetcher.UnsafeDeletionOfLiveNumbers | PyEmail/mailtools/mailFetcher.py:196-199 | Distinct live numbers are all deleted. |
| Fetcher.DeleteMessagesAsWritten | PyEmail/mailtools/mailFetcher.py:196-201 | As written, a non-empty list fails with AttributeError after one progress report, and only an empty list passes. |
| Fetcher.MailFetcher.MarkForDeletion | PyEmail/mailtools/mailFetcher.py:196-199 | The marks grow by the numbers the plain deletion run deletes; each progress report is (position, number). |
| Fetcher.MailFetcher.DeleteMessages | PyEmail/mailtools/mailFetcher.py:186-201 | The messages plain deletion marks are gone after QUIT and nothing else changes; the outcome and the progress reports are those of the run. |
| Fetcher.MailFetcher.SafeStep | PyEmail/mailtools/mailFetcher.py:234-240 | A number passes exactly when it is on the server, unmarked, and its header matches its index entry; a synchronisation error names the number. |
| Fetcher.MailFetcher.CheckBeforeDelete | PyEmail/mailtools/mailFetcher.py:234-240 | Makes the checks of one safe-deletion step against the server. |
| Fetcher.MailFetcher.MarkVerified | PyEmail/mailtools/mailFetcher.py:231-242 | The marks grow by the numbers safe deletion verifies; each progress report is (position, selection length). |
| Fetcher.MailFetcher.DeleteMessagesSafely | PyEmail/mailtools/mailFetcher.py:203-244 | Without TOP, TopNotSupported and nothing changes; with TOP, exactly the messages safe deletion verified are gone after QUIT. |
| Fetcher.MailFetcher.SafeDeletionVerified | PyEmail/mailtools/mailFetcher.py:234-242 | Every number deleted safely is deleted once and matched its index entry; a failure names the number it stopped at. |
| Fetcher.MailFetcher.CurrentIndexDeletesAll | PyEmail/mailtools/mailFetcher.py:234-242 | When the index agrees with the server on distinct live numbers, safe deletion deletes them all. |
| Fetcher.MailFetcher.LoadedIndexDeletesSafely | PyEmail/mailtools/mailFetcher.py:111-152 | An index freshly loaded by downloadAllHeaders lets safe deletion delete any distinct, unskipped numbers. |
| Fetcher.MailFetcher.StaleNumberDeletedUnsafely | PyEmail/mailtools/mailFetcher.py:189-191 | After another client deletes message k, plain deletion of k succeeds and removes the message that used to be k + 1. |
| Fetcher.MailFetcher.StaleNumberRefusedSafely | PyEmail/mailtools/mailFetcher.py:209-214 | In the same case, safe deletion refuses k with a synchronisation error and deletes nothing. |
| Fetcher.MailFetcher.DeleteMessagesSafelyAsWritten | PyEmail/mailtools/mailFetcher.py:219-231 | As written, safe deletion always fails: TopNotSupported without TOP, TypeError with TOP. |
| Fetcher.MailFetcher.CheckSyncError | PyEmail/mailtools/mailFetcher.py:246-280 | Equals the sync check: an index longer than the inbox fails; with TOP, the header of its last message must match the server's. |
| Fetcher.MailFetcher.SyncCheckRejectsLongerIndex | PyEmail/mailtools/mailFetcher.py:270-271 | An index with more entries than the inbox has messages is out of synch. |
| Fetcher.MailFetcher.LoadedIndexPassesSyncCheck | PyEmail/mailtools/mailFetcher.py:246-280 | A freshly loaded index of a non-empty inbox passes the sync check. |
| Fetcher.MailFetcher.SyncCheckDetectsReplacedMessage | PyEmail/mailtools/mailFetcher.py:273-278 | When the last indexed message was replaced by one with other Message-Ids, the check reports MessageSynchError. |
| Fetcher.MailFetcher.CheckSyncErrorAsWrittenNeverPasses | PyEmail/mailtools/mailFetcher.py:277 | As written, with TOP the check never passes, and once the header is fetched it fails with AttributeError. |
| Parser.Walk | PyEmail/mailtools/mailParser.py:35 | The walk starts at the message itself. |
| Parser.PartNameRule | PyEmail/mailtools/mailParser.py:47-67 | The name is the declared filename, else the name parameter, else part- with the index as three-or-more digits and an extension: .txt for text/plain, the guessed one, or .bin. |
| Parser.NamedPartsFollowWalk | PyEmail/mailtools/mailParser.py:29-46 | The named parts are exactly the non-multipart parts of the walk, in walk order, each named with its walk index. |
| Parser.NamedPartsCountLeaves | PyEmail/mailtools/mailParser.py:29-46 | A well-formed message yields one named part per leaf. |
| Parser.SynthesizedNameInjective | PyEmail/mailtools/mailParser.py:59-66 | Two synthesized names that are equal have the same index. |
| Parser.SynthesizedNamesDistinct | PyEmail/mailtools/mailParser.py:29-66 | When no part declares a name, all the names given are distinct. |
| Parser.PartsList | PyEmail/mailtools/mailParser.py:116-123 | The names of the named parts, in order. |
| Parser.FindOnePart | PyEmail/mailtools/mailParser.py:125-135 | Nothing exactly when the name is not in the parts list; otherwise the type and payload of the first part with that name. |
| Parser.DecodedPayload | PyEmail/mailtools/mailParser.py:137-165 | Equals the payload decoding function. |
| Parser.DecodedPayloadFirstWorkingEncoding | PyEmail/mailtools/mailParser.py:144-165 | A text payload is decoded by the first of the declared charset, the default, latin1 and utf8 that works, or becomes the cannot-decode text. |
| Parser.DecodedPayloadUnchanged | PyEmail/mailtools/mailParser.py:137-165 | Asked for bytes, or given no payload, the payload comes back undecoded. |
| Parser.MainTextPrefersPlain | PyEmail/mailtools/mailParser.py:176-179 | The first text/plain part is the main text. |
| Parser.MainTextThenHtml | PyEmail/mailtools/mailParser.py:182-185 | Without a plain part, the first text/html part is the main text. |
| Parser.MainTextThenAnyText | PyEmail/mailtools/mailParser.py:188-190 | Without plain or HTML, the first text part is the main text, reported with its own type. |
| Parser.MainTextPlaceholder | PyEmail/mailtools/mailParser.py:192-193 | Without any text part, the result is text/plain with the placeholder. |
| Parser.MainTextAsWrittenReturnsMethod | PyEmail/mailtools/mailParser.py:190 | As written, the any-text case returns the bound method instead of the type string; the text is the same. |
| Parser.DecodeChunks | PyEmail/mailtools/mailParser.py:206-213 | The chunks decode exactly when each one does, chunk by chunk. |
| Parser.DecodeHeader | PyEmail/mailtools/mailParser.py:195-217 | Equals the header decoding function. |
| Parser.PlainHeaderUnchanged | PyEmail/mailtools/mailParser.py:203-215 | A header with no encoded words comes back unchanged. |
| Parser.UndecodableHeaderUnchanged | PyEmail/mailtools/mailParser.py:213-217 | A header with one chunk that will not decode comes back raw. |
| Parser.DecodeAddrHeaderAsWritten | PyEmail/mailtools/mailParser.py:219-238 | As written, no addresses give the empty text, and any addresses make the two-argument formataddr fail, so the raw header is decoded as a whole. |
| Parser.DecodedAddresses | PyEmail/mailtools/mailParser.py:229-236 | One formatted address per pair, in order: the i-th is formataddr of the i-th name, decoded, with the i-th address. |
| Parser.DecodedAddressPlainName | PyEmail/mailtools/mailParser.py:229-236 | A name without encoded words is formatted unchanged with its address. |
| Parser.DecodeAddrHeader | PyEmail/mailtools/mailParser.py:219-238 | The decoded addresses joined by spaces. |
| Parser.DecodedAddressUnnamed | PyEmail/mailtools/mailParser.py:229-236 | An address without a name is given as the bare address, decode_header('') being one empty undecoded piece. |
| Parser.SplitAddresses | PyEmail/mailtools/mailParser.py:240-250 | One formatted address per address in the field, in order; an unnamed one is the bare address. |
| Parser.ParseHeaders | PyEmail/mailtools/mailParser.py:256-265 | The parsed headers, or the error message when parsing fails. |
| Parser.ParseMessage | PyEmail/mailtools/mailParser.py:267-278 | The parsed message, or the error message when parsing fails. |
| Parser.ParseMessageRaw | PyEmail/mailtools/mailParser.py:280-288 | Parses the same way as parseHeaders. |
| Parser.ParseFailureShowsErrorText | PyEmail/mailtools/mailParser.py:252-278 | The main text of a message that fails to parse is the parse-error text. |
| Sender.ChunksShape | PyEmail/mailtools/mailSender.py:27-41 | The pieces rejoin to the text, none is empty, each is at most n long, and all but the last are exactly n. |
| Sender.RewrappedLines | PyEmail/mailtools/mailSender.py:27-41 | The rewrapped Base64 lines have no newline, are at most 76 long, and all but the last are exactly 76. Together they are the text without newlines. |
| Sender.RewrapKeepsData | PyEmail/mailtools/mailSender.py:27-41 | Rewrapping changes only where the lines break. |
| Sender.RewrapIdempotent | PyEmail/mailtools/mailSender.py:27-41 | Rewrapping twice is rewrapping once. |
| Sender.FixEncodeBase64 | PyEmail/mailtools/mailSender.py:27-41 | The payload is the Base64 of the data, rewrapped. |
| Sender.EncodeHeader | PyEmail/mailtools/mailSender.py:232-242 | ASCII text is kept; other text is the built header, or kept when building fails. |
| Sender.EncodeHeaderIdempotent | PyEmail/mailtools/mailSender.py:232-242 | When built headers are ASCII, an encoded header is ASCII and encoding it again changes nothing. |
| Sender.EncodedName | PyEmail/mailtools/mailSender.py:250-259 | An ASCII name is kept; another name is the built header, or no name when building fails. |
| Sender.FoldAddrsRule | PyEmail/mailtools/mailSender.py:263-267 | Addresses are joined by a comma and a space, or by a comma, a newline and a space when that line exceeds 72 characters or holds a newline. |
| Sender.FoldingOnlyBreaksLines | PyEmail/mailtools/mailSender.py:263-267 | Folding only inserts line breaks. |
| Sender.EncodeAddrHeaderKeepsEveryAddress | PyEmail/mailtools/mailSender.py:244-268 | The corrected header holds every address of the field, in order. |
| Sender.EncodeAddrHeaderAsWritten | PyEmail/mailtools/mailSender.py:244-270 | As written, a field without addresses hits an unbound name and is encoded as plain text. |
| Sender.EncodeAddrHeaderAsWrittenKeepsLast | PyEmail/mailtools/mailSender.py:260-261 | As written, the header holds only the last address. |
| Sender.EncodeAddrHeaderDropsAddresses | PyEmail/mailtools/mailSender.py:260-261 | With two addresses, the header as written drops the first, while the corrected one keeps both. |
| Sender.ExtraStepRule | PyEmail/mailtools/mailSender.py:108-117 | An empty value adds nothing; another header adds one encoded field; Cc adds one field; Bcc adds recipients but no field. |
| Sender.NoBccField | PyEmail/mailtools/mailSender.py:116-117 | No extra field is ever named Bcc. |
| Sender.ExtraRecipientsFromAddressHeaders | PyEmail/mailtools/mailSender.py:113-115 | The extra recipients are exactly the encoded addresses of the given Cc and Bcc headers. |
| Sender.EmptyValueAddsNoField | PyEmail/mailtools/mailSender.py:109 | An extra header with an empty value adds no field wherever it stands. |
| Sender.EmptyValueAddsNoRecipient | PyEmail/mailtools/mailSender.py:109 | An extra header with an empty value adds no recipient wherever it stands. |
| Sender.SubjFieldHidesSubject | PyEmail/mailtools/mailSender.py:104 | A field named Subj leaves the message with no Subject; a field named Subject carries it. |
| Sender.Basename | PyEmail/mailtools/mailSender.py:210 | Under POSIX rules, the text after the last slash, or the whole path when there is none. |
| Sender.TypedPart | PyEmail/mailtools/mailSender.py:174-207 | A type without a slash fails; a text type gives the file text in its encoding; any other type gives the rewrapped Base64. |
| Sender.ContentTypeFor | PyEmail/mailtools/mailSender.py:168-170 | An unknown type, or a compressed file, is sent as application/octet-stream; otherwise the guessed type. |
| Sender.AttachmentPart | PyEmail/mailtools/mailSender.py:164-213 | A path that is not a file is skipped; a file fails only when its type has no slash; a part carries the basename and the type. |
| Sender.UnknownTypeAttachedAsBinary | PyEmail/mailtools/mailSender.py:168-170 | A file of unknown or compressed type is attached as Base64 octet-stream under its basename. |
| Sender.AttachmentAsWrittenFails | PyEmail/mailtools/mailSender.py:169-207 | As written, a file of unknown type fails with TypeError and a non-text file with NameError, where the corrected part succeeds. |
| Sender.KeptFiles | PyEmail/mailtools/mailSender.py:164-165 | Only paths that are files are kept. |
| Sender.AttachmentPartsFollowFiles | PyEmail/mailtools/mailSender.py:162-213 | When attaching succeeds, one part per kept file, in order, each under that file's basename. |
| Sender.AttachmentErrorStops | PyEmail/mailtools/mailSender.py:162-213 | The first failing attachment decides the outcome. |
| Sender.AddAttachments | PyEmail/mailtools/mailSender.py:148-213 | Equals the body part followed by the attachment parts, or the first attachment error. |
| Sender.SavedRecord | PyEmail/mailtools/mailSender.py:221-230 | An empty text saves nothing; otherwise the record is the separator and the text, ending in a newline. |
| Sender.Delivery | PyEmail/mailtools/mailSender.py:128-146 | Delivery only appends to the sent-mail log. |
| Sender.PartialFailureLogged | PyEmail/mailtools/mailSender.py:140-145 | A session the server accepts appends the saved record to the log, and passes exactly when no recipient was refused, else fails with the refused recipients. |
| Sender.FailedSessionNotLogged | PyEmail/mailtools/mailSender.py:134-136 | A refused session fails and logs nothing. |
| Sender.MailSender.constructor | PyEmail/mailtools/mailSender.py:60-62 | The sender keeps the email library, the header encoding and the log it is given. |
| Sender.MailSender.RecipientsExactly | PyEmail/mailtools/mailSender.py:98-120 | The recipients are exactly the encoded To, Cc and Bcc addresses, each once; no header field is Bcc. |
| Sender.MailSender.SaveSentMessage | PyEmail/mailtools/mailSender.py:215-230 | The log grows by the saved record, or is unchanged. |
| Sender.MailSender.AddExtraHeader | PyEmail/mailtools/mailSender.py:108-117 | Computes one extra header's fields and recipients. |
| Sender.MailSender.AddExtraHeaders | PyEmail/mailtools/mailSender.py:108-117 | Computes the fields and recipients of all the extra headers. |
| Sender.MailSender.SendMessage | PyEmail/mailtools/mailSender.py:64-146 | A composition error fails and leaves the log alone; otherwise the message goes from the encoded From address to the deduplicated recipients, and the outcome and the log are those of delivery. |
| Strings.Dedup | PyEmail/mailtools/mailSender.py:120 | Each recipient once, and no others. |
| FormMockup.IntText | Web/http_docs/cgi-bin/formMockup.py:17 | The decimal text of an integer: its digits denote it, after a minus sign when it is negative. |
| FormMockup.EntryOfShape | Web/http_docs/cgi-bin/formMockup.py:15-21 | A scalar becomes one field holding its text; a string is kept as it is; a list becomes its fields in order. |
| FormMockup.AppendPicks | Web/http_docs/cgi-bin/formMockup.py:19-21 | The list under the key becomes the fields of the picks. |
| FormMockup.MakeMockup | Web/http_docs/cgi-bin/formMockup.py:13-23 | The form has exactly the argument names as keys, each with the entry of its value. |
| FormMockup.SelfTest | Web/http_docs/cgi-bin/formMockup.py:26-38 | Both self-test checks pass. |
| PutFile.PosixTail | Web/http_docs/cgi-bin/putfile.py:60-61 | The POSIX file name is a suffix of the path. |
| PutFile.PosixTailRule | Web/http_docs/cgi-bin/putfile.py:60-61 | The POSIX file name is the text after the last slash, or the whole path when there is none. |
| PutFile.NoDriveWithoutSeparators | Web/http_docs/cgi-bin/putfile.py:60-61 | A path without slashes, backslashes or a colon second has no drive. |
| PutFile.DriveLetter | Web/http_docs/cgi-bin/putfile.py:60-61 | A colon as the second character, after a first character that is not a slash, makes a two-character drive. |
| PutFile.UncDrive | Web/http_docs/cgi-bin/putfile.py:60-61 | Two slashes, a machine, a slash and a non-empty mountpoint are the drive, up to the next slash or the end. |
| PutFile.UncIncomplete | Web/http_docs/cgi-bin/putfile.py:60-61 | Two slashes with no machine separator, or with an empty mountpoint, give no drive. |
| PutFile.NtTail | Web/http_docs/cgi-bin/putfile.py:60-61 | The Windows file name is a suffix of the path. |
| PutFile.NtTailRule | Web/http_docs/cgi-bin/putfile.py:60-61 | The Windows file name is the text after the last slash or backslash past the drive. |
| PutFile.MacTail | Web/http_docs/cgi-bin/putfile.py:60-61 | The Mac file name is a suffix of the path. |
| PutFile.MacTailRule | Web/http_docs/cgi-bin/putfile.py:60-61 | The Mac file name is the text after the last colon, or the whole path when there is none. |
| PutFile.SplitPath | Web/http_docs/cgi-bin/putfile.py:59-64 | The saved name is always a suffix of the client's path. |
| PutFile.SlashPathUsesPosix | Web/http_docs/cgi-bin/putfile.py:60-62 | A path with a slash gives the text after its last slash. |
| PutFile.BackslashPathUsesNt | Web/http_docs/cgi-bin/putfile.py:60-62 | A backslash path without slashes gives the Windows name, shorter than the path and free of separators. |
| PutFile.BackslashTailWithoutDrive | Web/http_docs/cgi-bin/putfile.py:60-62 | Without a drive, such a path gives the text after its last backslash. |
| PutFile.DriveLetterNameDropsDrive | Web/http_docs/cgi-bin/putfile.py:60-62 | C:name gives name. |
| PutFile.ColonPathUsesMac | Web/http_docs/cgi-bin/putfile.py:60-64 | A colon path without slashes or a drive letter gives the text after its last colon. |
| PutFile.BareNameUnchanged | Web/http_docs/cgi-bin/putfile.py:64 | A name without any separator is kept as it is. |

## Left out

- Connecting, authentication, password files and prompts, tracing and
  `tracesize` are left out. They are I/O; the server sessions are the
  `Mailbox` and `Smtp` parameters.
- `fix_text_required` and the bytes/str conversion of the body and the text
  attachments are left out. They choose how Python represents the text; the
  body and file text are carried as given, with their encoding names. Two
  failures of that conversion are therefore not modelled: the `LookupError`
  of an unknown `bodytextEncoding` (PyEmail/mailtools/mailSender.py:78-83),
  and the `UnicodeDecodeError` of a text attachment with non-ASCII bytes
  read as 'us-ascii' (PyEmail/mailtools/mailSender.py:160, 176-180).
- `Sender.Basename`: the attachment name follows the POSIX rule of
  `os.path.basename`, the text after the last '/'. On Windows the name is
  also cut at the last `\` and after a drive such as `C:`, so there
  `C:\docs\a.txt` is attached as `a.txt`, where the model names it after
  the whole path. The platform the sender runs on is not modelled.
- `Strings.Dedup`: `list(set(recip))` has no fixed order. The model keeps the
  first occurrence of each recipient, and the contract states only the members
  and that each appears once.
- `Sender.WellTyped` excludes a non-address extra header whose value is a
  list. That header is refused because `encodeHeader` would be handed a list.
- `getaddresses`, `formataddr` and `make_header` are taken as total. So the
  `except` branch of `splitAddresses` is not reachable, and neither is that of
  `encodeAddrHeader`, apart from the unbound name for a field without
  addresses.
- `posixpath`, `ntpath` and `macpath` are not part of this model; only their
  split rules are, following Python 3.2 (UNC drives included).
- The library follows Python 3.2, where `formataddr` takes a single pair.
  With the `charset` argument Python 3.3 added, the two-argument call in
  `decodeAddrHeader` would not always raise: a two-character name would be
  unpacked as a pair. That case is not modelled.
- `formMockup` takes only `str` and `int` scalars; other Python objects and
  their `str()` are left out.
- `Strings.Lower` lowers ASCII letters only, with no Unicode case mapping.
- Every fetcher operation requires a fresh session (`box.marked == {}`), as
  `connect` always opens a new one.
- `saveParts` and `saveOnePart` are left out. They write files to a
  directory, which this model has no file system for.
- `mailTool` and `selftest` are left out. They are tracing and interactive
  console code.
- Character-set semantics are not modelled: encodings are names, and whether
  bytes decode under a name is the `Codec` parameter.
- The progress callback becomes the returned sequence of its arguments. A
  callback that raises is not modelled.
- `Fetcher.MailFetcher.DeleteMessagesSafely` looks headers up by full message
  number, as the code does, not by position in the selection as the
  docstring at mailFetcher.py:213 says.
- The date comes from the clock (`formatdate`), and is a parameter.

## Findings

| source | as written | input that shows it | evidently intended | confidence | as-written member | corrected member |
|---|---|---|---|---|---|---|
| PyEmail/mailtools/mailFetcher.py:231 | `enumerate(msgCount)` iterates over the message count, an integer | any call with TOP | iterate over `msgnums` | not executed | Fetcher.MailFetcher.DeleteMessagesSafelyAsWritten | Fetcher.MailFetcher.DeleteMessagesSafely |
| PyEmail/mailtools/mailFetcher.py:277 | compares with the list `synchHeaders[:-1]` | any current index on a server with TOP | compare with the last header `synchHeaders[-1]` | not executed | Fetcher.MailFetcher.CheckSyncErrorAsWrittenNeverPasses | Fetcher.MailFetcher.LoadedIndexPassesSyncCheck |
| PyEmail/mailtools/mailFetcher.py:146 | `server.unlock()`, a method POP3 does not have | any header download with TOP | `server.quit()` | not executed | Fetcher.MailFetcher.DownloadAllHeadersAsWritten | Fetcher.MailFetcher.DownloadAllHeaders |
| PyEmail/mailtools/mailFetcher.py:199 | `server.delete(msgnum)`, a method POP3 does not have | deleting [1] | `server.dele(msgnum)` | not executed | Fetcher.DeleteMessagesAsWritten | Fetcher.MailFetcher.DeleteMessages |
| PyEmail/mailtools/mailFetcher.py:179-180 | appends the decoded but unjoined line list and `len` of the integer octet count | an inbox of one message with no fetch limit | append the joined text and the octet count | not executed | Fetcher.MailFetcher.DownloadAllMessagesAsWrittenFails | Fetcher.MailFetcher.DownloadAllMessages |
| PyEmail/mailtools/mailParser.py:190 | returns `part.get_content_type`, the bound method | a message whose only text part is text/enriched | return `part.get_content_type()` | not executed | Parser.MainTextAsWrittenReturnsMethod | Parser.MainTextThenAnyText |
| PyEmail/mailtools/mailParser.py:234 | `formataddr(name, addr)` with two arguments raises, and the raw header is decoded whole | any address header | `formataddr((name, addr))` for each address | not executed | Parser.DecodeAddrHeaderAsWritten | Parser.DecodeAddrHeader |
| PyEmail/mailtools/mailSender.py:104 | the header is named `Subj` | any message with a subject | name it `Subject` | not executed | Sender.SubjFieldHidesSubject | Sender.MailSender.SendMessage |
| PyEmail/mailtools/mailSender.py:187-207 | `fix_encode_base64`, a name that is not defined | attaching a .png file | `fix_encode_base_64` | not executed | Sender.AttachmentAsWrittenFails | Sender.AttachmentPart |
| PyEmail/mailtools/mailSender.py:169 | `contype is None and encoding is not None` | attaching a file without an extension | `contype is None or encoding is not None` | not executed | Sender.AttachmentAsWrittenFails | Sender.UnknownTypeAttachedAsBinary |
| PyEmail/mailtools/mailSender.py:260-261 | formats and appends only after the loop | "a@x, b@y" | format and append inside the loop | not executed | Sender.EncodeAddrHeaderDropsAddresses | Sender.EncodeAddrHeaderKeepsEveryAddress |
