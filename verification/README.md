# FluxCP: a verified model

FluxCP is a web control panel for game servers. This project models the parts of it, and of the
PHPMailer 5.2.26 library it bundles, whose correctness is hard to see from the code, and proves what
they promise. `dafny verify dfyconfig.toml` checks everything.

Text is a Dafny `string`, one `char` for each byte. The classes have the fields the PHP classes update;
loops, early returns and the order of the statements are those of the PHP methods. A library or server the
code talks to is a parameter: replies of the SMTP server, outcomes of SQL statements, the clock, the
transfer encodings, file contents.

| file | what it models |
|---|---|
| `QEncoding`, `CharBoundary`, `Wrapping`, `Base64`, `HeaderEncoder` | header encoding |
| `HeaderReader` | a reader of header fields: folding, quoted strings and comments (RFC 5322), encoded words among other tokens (RFC 2047) |
| `Smtp` | the DATA phase of the SMTP client, against a receiver of section 4.5.2 of RFC 5321 |
| `Recipients` | the recipient lists, their index, and the SMTP transaction that relies on it |
| `MimeReader`, `MimeLayout`, `MimeRoundTrip`, `MimeMailer` | MIME messages, against a reader of section 5.1 of RFC 2046 |
| `MimeContent` | what a receiver gets out of them: header fields, and the contents decoded by the encoding that each header announces (section 6 of RFC 2045) |
| `Delivery` | header, body and DATA phase together: what the server receives reads as the message |
| `Ledger` | donation credits: notifications, holds, reversals, transfers |
| `ConfigTree`, `StringOffset`, `ServersConfig` | configuration trees, with the string offsets of PHP 7, import merge, the normal form of the servers configuration |
| `Bitmap` | the BMP decoder, against an encoder of the format |
| `Paginator` | rows and panes of a paged listing |
| `Strings`, `Wrappers` | PHP string functions and an option type |

## Where the code does not do what one expects

Each of these is a proved statement with the exact condition, or an example.

- A header that is split over several SMTP lines unfolds to itself (up to the kind of blank) exactly when
  every 997 characters after the first, where more than that is to come, hold a space
  (`Smtp.HeaderUnfolds`); `Smtp.SomeHeaderIsCut` is a header that comes apart.
- Body lines arrive as they are exactly when none is longer than 998 bytes (`Smtp.SentAsTheyAre`).
- A phrase without 8-bit characters reads back exactly when it has no control character and does not
  consist of atoms with an encoded word among them (`HeaderEncoder.PlainPhraseReadsBack`). The name
  `=?us-ascii?Q?abc?=` is read as `abc` (`HeaderEncoder.PhraseReadAsAnother`).
- Text that is left unencoded reads back exactly when it has no line break and no encoded word
  (`HeaderReader.TextStands`): line breaks are not among the characters that make `encodeHeader` encode, so
  `a`, CRLF, `Bcc: x@y` stays as it is and becomes two fields (`HeaderEncoder.TextWithAnotherField`). A comment
  must have no backslash either (`HeaderEncoder.EncodeHeader`): one at its end quotes the bracket that should
  close it (`HeaderEncoder.CommentIsNotClosed`).
- `base64EncodeWrapMB` ends exactly when the code of every character fits the room that the name of the
  character set leaves on a line; else its outer loop stays at a character for ever (`Base64.LoopsEnd`).
- `get` never finds the keys "" and "0", which `set` stores (`ConfigTree.GetAfterSet`,
  `ConfigTree.StoredNotFound`).
- `set` without overwriting changes a value exactly when the key leads through a null or a false that becomes
  an array, or through a string that gets another byte at the offset the next key stands for: the last one on
  the way, or any of them when nodes are to be created (`ConfigTree.PutKeeps`, `ConfigTree.NullIsLost`,
  `ConfigTree.StringIsSpoiled`). A string before the last one also ends the call with an error
  (`ConfigTree.StringInTheWay`).
- An empty array in an import does not replace a non-empty array of the base, unless a key at or above it is
  one to clear (`ConfigTree.ImportWins`, `ConfigTree.EmptyArrayLoses`).
- Balance and log disagree after a notification exactly when a settled payment worth credits is deposited
  but not logged or logged but not deposited (`Ledger.NoticeAgreement`, `Ledger.UnloggedDeposit`).
- Processing held payments keeps the agreement exactly when the payments worth credits are all deposited and
  released, or none is (`Ledger.HeldAgreement`). When only the release fails, every later call deposits the
  payment again (`Ledger.CreditedTwice`); when only the deposit fails, its credits are gone
  (`Ledger.ReleasedUndeposited`); when the look-up of reversals fails, a reversed payment is taken for
  deposit (`Ledger.ReversedIsAccepted`).
- A transfer loses credits exactly when both the target's deposit and the restoring one fail
  (`Ledger.TransferMoves`, `Ledger.LosingTransfer`).
- The mask test for magenta in the BMP decoder, documented as "0xFF00FF", tests the lowest bits of red and
  blue because `==` binds tighter than `&`. A pixel is drawn with another alpha than documented exactly when
  the two tests disagree on its stored colour (`Bitmap.WhatIsTransparent`, `Bitmap.MagentaIsDrawnOpaque`).
- The last pane of the paginator lists one page too many exactly when the last page would start a pane of
  its own (`Paginator.PaneSize`, `Paginator.OneLinkTooMany`).
- When the server refuses the message itself, the connection stays open even if it is not to be kept alive
  (`Recipients.OutcomeByReplies`).
- A calendar event is printed exactly in messages with an alternative body, no inline part and no attachment
  (`MimeRoundTrip.EventIsPrinted`).
- An attachment that cannot be read empties the body, yet composing goes on and reports success
  (`MimeMailer.Mailer.PreSend`, `MimeMailer.UnreadableAttachment`).

## Model

| member | source | states |
|---|---|---|
| QEncoding.EncodeQ | fluxcp/lib/phpmailer/class.phpmailer.php:2944-2982 | replacing each matched character in the whole string, `=` first, gives what encoding byte by byte in one pass gives, in all three positions |
| QEncoding.ReplaceOrder | fluxcp/lib/phpmailer/class.phpmailer.php:2967-2978 | the replacements are each matched character once, with `=` in front when it occurs |
| QEncoding.QRoundTrip | fluxcp/lib/phpmailer/class.phpmailer.php:2944-2982 | decoding a Q-encoded text gives the text without CR and LF, in every position |
| QEncoding.QEncodeIsClean | fluxcp/lib/phpmailer/class.phpmailer.php:2951-2966 | only characters that sections 4.2 and 5 of RFC 2047 allow at the position are left, so no blank, break or `?` |
| QEncoding.WhatIsEscaped | fluxcp/lib/phpmailer/class.phpmailer.php:2946-2982 | which bytes stay, become `_`, are dropped or are written as `=` and two upper-case digits, by ranges, at each position |
| CharBoundary.Utf8CharBoundary | fluxcp/lib/phpmailer/class.phpmailer.php:1962-1997 | the look-back stops; the cut is never inside an escape or a character and at most 12 below the limit, there is none between it and the limit, and the limit itself is passed over only where a character of several bytes ends |
| CharBoundary.EncodeKeepsChars | fluxcp/lib/phpmailer/class.phpmailer.php:2944-2982 | Q-encoding well-formed UTF-8 gives a text of whole escaped characters |
| CharBoundary.DecodeKeepsChars | fluxcp/lib/phpmailer/class.phpmailer.php:1962-1997 | a piece made of whole escaped characters decodes to well-formed UTF-8 |
| Wrapping.WrapText | fluxcp/lib/phpmailer/class.phpmailer.php:1863-1951 | no word is lost: undoing the breaks gives the text, rows fit the limit or are one word; a row ends at a space only if the next word does not fit, or has to be cut and at most 20 characters are left for it; ends on every input |
| Wrapping.FixEOL | fluxcp/lib/phpmailer/class.phpmailer.php:3347-3356 | all kinds of line breaks become the line ending |
| Wrapping.CutLength | fluxcp/lib/phpmailer/class.phpmailer.php:1895-1902 | a long word is cut between characters or escapes, and some of it is taken |
| Wrapping.BreakWord | fluxcp/lib/phpmailer/class.phpmailer.php:1912-1932 | the chunk loop ends and its rows are the word, in whole characters |
| Wrapping.PlainIsUndone | fluxcp/lib/phpmailer/class.phpmailer.php:1869-1950 | with LF as line ending, LF back to space and CRLF back to line end undo plain wrapping |
| Wrapping.QuotedIsUndone | fluxcp/lib/phpmailer/class.phpmailer.php:1869-1950 | removing soft breaks undoes wrapping in quoted-printable mode |
| Base64.RoundTrip | fluxcp/lib/phpmailer/class.phpmailer.php:2883 | decoding the base64 code of any bytes gives the bytes |
| Base64.Alphabet | fluxcp/lib/phpmailer/class.phpmailer.php:2883 | the digits are those of RFC 4648 |
| Base64.EncodeLength | fluxcp/lib/phpmailer/class.phpmailer.php:2871-2876 | the code of n bytes has 4 ceil(n/3) characters |
| Base64.Base64EncodeWrapMB | fluxcp/lib/phpmailer/class.phpmailer.php:2861-2892 | when the code of every character fits, the lines are codes of non-empty runs of whole characters that make up the text, each within the room, and decode to it |
| Base64.FitChunk | fluxcp/lib/phpmailer/class.phpmailer.php:2879-2885 | shortening ends at the longest chunk, up to the average, whose code fits |
| Base64.LoopsEnd | fluxcp/lib/phpmailer/class.phpmailer.php:2878-2888 | the outer loop gets to the end of the text if and only if the code of every character fits the room |
| HeaderEncoder.EncodeHeader | fluxcp/lib/phpmailer/class.phpmailer.php:2768-2824 | for any bytes the result has no byte above 126 and no control character but tab, CR and LF; encoded text is words of at most 75 characters in B or Q, as the count decides, with only what the position allows in them, folded between words, whole characters in each, that read back as the text at its position; text that is left unencoded reads back if and only if it stands for itself there |
| HeaderEncoder.WhatIsLeft | fluxcp/lib/phpmailer/class.phpmailer.php:2771-2797 | text is left unencoded if and only if every byte is 9, 10, 13 or 32 to 126, in a comment no bracket or quote, and a phrase if and only if no byte is above 127 |
| HeaderEncoder.CountOfFlagged | fluxcp/lib/phpmailer/class.phpmailer.php:2782-2801 | the count is the number of positions whose byte is flagged, brackets and quotes of a comment among them, and B is chosen if and only if they are more than a third |
| HeaderEncoder.WhatIsFlagged | fluxcp/lib/phpmailer/class.phpmailer.php:2782-2790 | which bytes are flagged at each position, by ranges |
| HeaderEncoder.WhichAreQuoted | fluxcp/lib/phpmailer/class.phpmailer.php:2772-2780 | an unencoded phrase is sent without quotes if and only if it has letters, digits, blanks and the marks of an atom alone |
| HeaderEncoder.PlainPhraseReadsBack | fluxcp/lib/phpmailer/class.phpmailer.php:2772-2781 | an unencoded phrase reads back if and only if it has no control character and does not consist of atoms with an encoded word among them |
| HeaderEncoder.WordReadAsAnother | fluxcp/lib/phpmailer/class.phpmailer.php:2772-2781 | an encoded word made of atoms is sent unquoted as a name, and read as its decoded text |
| HeaderEncoder.PhraseReadAsAnother | fluxcp/lib/phpmailer/class.phpmailer.php:2772-2781 | the name `=?us-ascii?Q?abc?=` is sent as it is and read as `abc` |
| HeaderReader.TextStands | fluxcp/lib/phpmailer/class.phpmailer.php:2795-2798 | text that is not encoded is read as it is if and only if it has no line break and no encoded word among its tokens |
| HeaderReader.CommentStands | fluxcp/lib/phpmailer/class.phpmailer.php:2783-2798 | a comment that is not encoded is read as it is if and only if it has no line break, no backslash and no encoded word, and ends at its own bracket |
| HeaderEncoder.TextEndsAtBreak | fluxcp/lib/phpmailer/class.phpmailer.php:2793-2798 | a line break that no blank follows stays in the text and ends the field there |
| HeaderEncoder.TextWithAnotherField | fluxcp/lib/phpmailer/class.phpmailer.php:2107-2112 | a header value that is left as it is and brings in a Bcc field |
| HeaderEncoder.CommentIsNotClosed | fluxcp/lib/phpmailer/class.phpmailer.php:2786-2798 | a comment with a backslash at its end is left as it is and never closed |
| HeaderEncoder.FoldWords | fluxcp/lib/phpmailer/class.phpmailer.php:2820-2821 | marking the lines and trimming gives exactly the encoded words, joined by line ending and space |
| HeaderEncoder.QLines | fluxcp/lib/phpmailer/class.phpmailer.php:2814-2817 | the wrapped Q text, without soft break marks, is lines of whole characters that decode to the text |
| HeaderEncoder.BLines | fluxcp/lib/phpmailer/class.phpmailer.php:2801-2812 | the base64 lines fit a word and decode to the text, on the multibyte and the plain path |
| Smtp.SplitIsLossless | fluxcp/lib/phpmailer/class.smtp.php:677-700 | splitting ends for every line, and putting the pieces together gives the line |
| Smtp.PiecesFit | fluxcp/lib/phpmailer/class.smtp.php:675-700 | each piece has at most 998 bytes and no line break in it |
| Smtp.BreakIsBest | fluxcp/lib/phpmailer/class.smtp.php:680-694 | a line is broken at its last fitting space, and only without one in a word |
| Smtp.WhatStartsHeaders | fluxcp/lib/phpmailer/class.smtp.php:665-671 | the first line makes the lines headers if and only if it has a colon after a name without spaces that is not "0" |
| Smtp.HeaderUnfolds | fluxcp/lib/phpmailer/class.smtp.php:695-698 | a header line unfolds to itself if and only if there is a space to break at wherever it must be broken |
| Smtp.SomeHeaderIsCut | fluxcp/lib/phpmailer/class.smtp.php:680-698 | an X-Note field with one long word has pieces that unfold to another text |
| Smtp.LinesAreLossless | fluxcp/lib/phpmailer/class.smtp.php:666-700 | each line is its pieces joined at the kinds of their breaks, as a header line up to the first blank line and as a body line after it |
| Smtp.SentAsTheyAre | fluxcp/lib/phpmailer/class.smtp.php:666-700 | the lines are sent as they are if and only if none is longer than 998 bytes |
| Smtp.FramingIsTransparent | fluxcp/lib/phpmailer/class.smtp.php:702-716 | the receiver gets the lines that were sent and meets the lone dot only at the end, whatever follows |
| Smtp.DataIsTransparent | fluxcp/lib/phpmailer/class.smtp.php:643-721 | for any message bytes the receiver gets exactly the split lines, each within the limit |
| Smtp.TransmitIsReceived | fluxcp/lib/phpmailer/class.smtp.php:643-721 | after a reply that starts with 354 the bytes on the connection are the framed message, and the result is true if and only if the next reply starts with 250 |
| Smtp.TransmitIsRefused | fluxcp/lib/phpmailer/class.smtp.php:643-648 | after any other reply to DATA nothing more is sent and the result is false |
| Smtp.IssuedBy | fluxcp/lib/phpmailer/class.smtp.php:880-931 | a command succeeds if and only if it could be sent and the reply starts with one of the codes; one reply is used up |
| Smtp.SMTP.SendCommand | fluxcp/lib/phpmailer/class.smtp.php:880-931 | nothing is sent without a connection or with a break in the command; else the command and CRLF are sent, and it succeeds if and only if the reply starts with one of the three-digit codes |
| Smtp.SMTP.SplitLongLine | fluxcp/lib/phpmailer/class.smtp.php:672-700 | the loop produces the pieces of the line |
| Smtp.SMTP.SendMessage | fluxcp/lib/phpmailer/class.smtp.php:666-710 | the loop over the lines, with the end of the headers, sends the framed pieces of all lines |
| Smtp.SMTP.SendLines | fluxcp/lib/phpmailer/class.smtp.php:702-709 | pieces are sent with a leading dot doubled |
| Smtp.SMTP.Data | fluxcp/lib/phpmailer/class.smtp.php:643-721 | DATA, the framed lines and the lone dot are sent if the reply allows; time limit and options are as before |
| Recipients.AddKeepsIndex | fluxcp/lib/phpmailer/class.phpmailer.php:915-948 | adding keeps the index equal to the lower-cased addresses, pairwise different over the three lists |
| Recipients.ClearKeepsIndex | fluxcp/lib/phpmailer/class.phpmailer.php:3166-3199 | clearing a list removes its keys and no key another list needs |
| Recipients.IndexIsExactOverRuns | fluxcp/lib/phpmailer/class.phpmailer.php:915-948 | the index stays exact over every run of additions and clearings |
| Recipients.NewMailerIsExact | fluxcp/lib/phpmailer/class.phpmailer.php:3166-3222 | so it is exact in every state of a new mailer |
| Recipients.WhereAddressGoes | fluxcp/lib/phpmailer/class.phpmailer.php:915-948 | a valid address that is in none of the three lists, in any case of letters, goes to the end of the list of its kind and nowhere else; a reply-to must only not be one already |
| Recipients.WhatIsCleared | fluxcp/lib/phpmailer/class.phpmailer.php:3166-3222 | clearing a kind empties its list alone, clearing all recipients the three lists but not the reply-to map |
| Recipients.IndexCounts | fluxcp/lib/phpmailer/class.phpmailer.php:1570 | the size of the index is the number of entries of the lists |
| Recipients.CountTestNeedsIndex | fluxcp/lib/phpmailer/class.phpmailer.php:1570 | the count comparison is right for every number of rejections if and only if that holds |
| Recipients.DataIffAccepted | fluxcp/lib/phpmailer/class.phpmailer.php:1555-1572 | DATA follows the recipients if and only if the server accepted one, for any replies |
| Recipients.OutcomeByReplies | fluxcp/lib/phpmailer/class.phpmailer.php:1555-1590 | from the replies alone: delivered if and only if every recipient and the data phase were accepted, which recipients were refused and how many, and that the connection stays open exactly when it is kept alive or the data phase failed, with RSET or QUIT as the last command |
| Recipients.OfferedBy | fluxcp/lib/phpmailer/class.phpmailer.php:1556-1567 | each recipient is offered in turn, and accepted if and only if the reply of its turn starts with 250 or 251 |
| Recipients.RecipientsAreNamed | fluxcp/lib/phpmailer/class.phpmailer.php:1556-1558 | the commands on the wire name the recipients, in the order of the lists |
| Recipients.SenderIsRead | fluxcp/lib/phpmailer/class.smtp.php:813-821 | the sender is read back from the MAIL command, with and without XVERP |
| Recipients.PHPMailer.AddAnAddress | fluxcp/lib/phpmailer/class.phpmailer.php:915-948 | lists, index and reply-to map after an addition; false for repeated, invalid or of unknown kind |
| Recipients.PHPMailer.ClearAddresses | fluxcp/lib/phpmailer/class.phpmailer.php:3166-3173 | the list is emptied and its keys leave the index |
| Recipients.PHPMailer.SmtpSend | fluxcp/lib/phpmailer/class.phpmailer.php:1539-1591 | the whole transaction: the sender if it is valid, else the From address, is named; a sender that is refused ends it; else every recipient is offered, the message sent if one is accepted, then RSET or QUIT, and the outcome |
| Ledger.Database.DepositCredits | fluxcp/lib/Flux/LoginServer.php:387-436 | inserts or adds exactly the amount, or changes nothing and returns false |
| Ledger.Database.Process | fluxcp/lib/Flux/PaymentNotifyRequest.php:199-308 | deposit, hold and log row of a notification along every branch |
| Ledger.WhatNoticeDoes | fluxcp/lib/Flux/PaymentNotifyRequest.php:199-308 | a completed, exchangeable payment of at least the minimum is held if and only if a hold is configured and the donor is not trusted, and deposited at once otherwise; the row it writes |
| Ledger.WhatIsCredited | fluxcp/lib/Flux/PaymentNotifyRequest.php:216-239 | the credits are the greatest number whose price the amount covers, or none |
| Ledger.WhichHoldRuns | fluxcp/lib/Flux/PaymentNotifyRequest.php:219-236 | a hold joins the first running hold of the same donor, else it starts now |
| Ledger.Database.ProcessHeldCredits | fluxcp/lib/Flux.php:763-830 | reversed payments cancelled, payments whose hold has ended deposited, trusted and released, whichever of its statements fail |
| Ledger.HoldIsKept | fluxcp/lib/Flux.php:777-828 | in every run a completed payment without a reversal whose hold has not ended keeps its row and is not paid |
| Ledger.WhatBecomesOfRow | fluxcp/lib/Flux.php:770-828 | when all statements succeed: what each row of the log is afterwards |
| Ledger.WhoIsPaid | fluxcp/lib/Flux.php:770-819 | when all statements succeed a payment is paid if and only if it is completed, waiting, expired, not reversed, and of a known account |
| Ledger.WhoGetsWhat | fluxcp/lib/Flux.php:809-810 | and each account gets the sum of its payments that are due |
| Ledger.WhoIsTrusted | fluxcp/lib/Flux.php:799-816 | and exactly their donors come to be trusted, none of them twice |
| Ledger.Database.TransferCredits | fluxcp/lib/Flux/Athena.php:306-371 | the balances and the result of each branch, with the compensating deposit |
| Ledger.TransferSays | fluxcp/lib/Flux/Athena.php:306-371 | which result a transfer has, each if and only if its condition holds |
| Ledger.NoticeAgreement | fluxcp/lib/Flux/PaymentNotifyRequest.php:199-308 | a notification keeps balances and log in agreement if and only if it deposits and logs, or neither, a settled payment worth credits |
| Ledger.UnloggedDeposit | fluxcp/lib/Flux/PaymentNotifyRequest.php:241-308 | a verified payment is deposited and its log row fails: balance and log disagree |
| Ledger.HeldAgreement | fluxcp/lib/Flux.php:801-828 | processing held payments keeps the agreement if and only if the accepted payments worth credits are all deposited and released, or none is |
| Ledger.HeldKeepsAgreement | fluxcp/lib/Flux.php:763-830 | if they are, balances and log agree afterwards, whatever the credits, and the log stays in order |
| Ledger.CreditedTwice | fluxcp/lib/Flux.php:810-828 | when the releasing update fails, the next call deposits the payment again |
| Ledger.ReleasedUndeposited | fluxcp/lib/Flux.php:810-828 | when the deposit fails, the payment is released all the same and no balance has its credits |
| Ledger.ReversedIsAccepted | fluxcp/lib/Flux.php:779-791 | when the look-up of reversals fails, a reversed payment is taken for deposit |
| Ledger.LedgerAgrees | fluxcp/lib/Flux.php:763-830 | over every run in which each payment is deposited and logged or released, or neither, each balance is its start plus the credits of the account's rows that are not held |
| Ledger.CreditedAtMostOnce | fluxcp/lib/Flux.php:763-830 | over every such run in which logged reversals are found, no payment is credited twice, nor after it is settled |
| Ledger.CancelledIsNeverCredited | fluxcp/lib/Flux.php:777-797 | over every such run a payment reversed while held is never credited |
| Ledger.TransferMoves | fluxcp/lib/Flux/Athena.php:318-371 | true means exactly the amount moved between two different accounts; else nothing changes, but for the one losing run |
| Ledger.LosingTransfer | fluxcp/lib/Flux/Athena.php:350-358 | five credits leave the sender and reach nobody |
| Ledger.TransferConserves | fluxcp/lib/Flux/Athena.php:318-371 | the total stays, but for the losing run, and no balance becomes negative |
| MimeReader.ReadPrinted | fluxcp/lib/phpmailer/class.phpmailer.php:2245-2348 | a printed tree of parts is read back as it was, at any nesting |
| MimeLayout.SurvivesByLists | fluxcp/lib/phpmailer/class.phpmailer.php:2587-2600 | the lists of seen entries and content ids keep an attachment unless an earlier one repeats it |
| MimeLayout.LayoutLines | fluxcp/lib/phpmailer/class.phpmailer.php:2245-2348 | the lines of the tree are those printed case by case |
| MimeMailer.Mailer.SetMessageType | fluxcp/lib/phpmailer/class.phpmailer.php:2456-2473 | the type is the imploded list of what the message has, from which each kind is read back, and names the layout |
| MimeLayout.NamesDiffer | fluxcp/lib/phpmailer/class.phpmailer.php:2245-2348 | the names tell the eight layouts apart |
| MimeLayout.NameOfKinds | fluxcp/lib/phpmailer/class.phpmailer.php:2456-2473 | imploding the kinds gives the name of the layout, and exploding the name gives the kinds |
| MimeMailer.Mailer.GetBoundary | fluxcp/lib/phpmailer/class.phpmailer.php:2415-2437 | a delimiter, the header of the part with its defaults, from which type, character set and encoding are read (`MimeContent.TextHeaderSays`), and a blank line |
| MimeMailer.Mailer.PrintAttachment | fluxcp/lib/phpmailer/class.phpmailer.php:2602-2671 | delimiter, header fields and data are the printed form of the attachment's part |
| MimeMailer.Mailer.AttachAll | fluxcp/lib/phpmailer/class.phpmailer.php:2566-2680 | prints the surviving attachments of one disposition and the closing delimiter; stops at an error |
| MimeMailer.Mailer.CreateBody | fluxcp/lib/phpmailer/class.phpmailer.php:2201-2350 | for each message type the text is the printed body of the layout, if and only if every printed part can be encoded; else the empty text. What a receiver decodes from it is `MimeContent.ReceiverGetsContent` |
| MimeMailer.Mailer.GetMailMIME | fluxcp/lib/phpmailer/class.phpmailer.php:2126-2171 | content type, announced boundary and encoding of the message (`MimeContent.TopHeaderSays`, `MimeContent.TextsSay`), and the blank line |
| MimeMailer.Mailer.PreSend | fluxcp/lib/phpmailer/class.phpmailer.php:1231-1320 | a message without recipients, with an invalid sender address or with an empty body is refused and counted as an error; for another there is no error if and only if every printed part can be encoded, and then the composed message reads back as its layout; with the new state of the mailer |
| MimeMailer.UnreadableAttachment | fluxcp/lib/phpmailer/class.phpmailer.php:2201-2350 | with an attachment whose file cannot be read composing succeeds, and the text is empty |
| MimeRoundTrip.SentIsReceived | fluxcp/lib/phpmailer/class.phpmailer.php:2126-2348 | for every attachment list and message type the text is read as the nested layout, if no printed content has a boundary line |
| MimeRoundTrip.LayoutLeaves | fluxcp/lib/phpmailer/class.phpmailer.php:2245-2348 | the leaves of the layout are the bodies, the inline parts and the attachments, in this order and nothing else |
| MimeRoundTrip.EventIsPrinted | fluxcp/lib/phpmailer/class.phpmailer.php:2274-2289 | the calendar event makes a difference if and only if there is an alternative body, no inline part and no attachment |
| MimeRoundTrip.EachSurvivorOnce | fluxcp/lib/phpmailer/class.phpmailer.php:2573-2600 | the parts of a disposition are its surviving attachments, each once, in list order |
| MimeRoundTrip.DroppedForAnother | fluxcp/lib/phpmailer/class.phpmailer.php:2587-2600 | a dropped attachment repeats an earlier surviving one, or its content id |
| MimeRoundTrip.EncodedNamesAreFolded | fluxcp/lib/phpmailer/class.phpmailer.php:2604-2612 | names from the header encoder keep the headers of parts well formed |
| MimeContent.ReceiverGetsContent | fluxcp/lib/phpmailer/class.phpmailer.php:2201-2350 | decoding each leaf by the encoding its own header announces gives the bodies, the event and the data of each surviving attachment, in order, for every decoder that inverts the encoder on them |
| MimeContent.SentContentIsRead | fluxcp/lib/phpmailer/class.phpmailer.php:2126-2350 | so does the reader of the whole text |
| MimeContent.TextHeaderSays | fluxcp/lib/phpmailer/class.phpmailer.php:2415-2437 | the header of a text announces its type, character set and encoding, 7bit by not naming one |
| MimeContent.AttachmentHeaderSays | fluxcp/lib/phpmailer/class.phpmailer.php:2602-2660 | the header of an attachment announces type and name, encoding, content id if it is inline, disposition and file name, whatever the folding of the names |
| MimeContent.TopHeaderSays | fluxcp/lib/phpmailer/class.phpmailer.php:2130-2164 | the header of a multipart message announces type and boundary, and 8bit as the only encoding |
| MimeContent.EncodingFits | fluxcp/lib/phpmailer/class.phpmailer.php:2216-2242 | a text with a line of 1000 bytes goes as quoted-printable or base64, an ASCII text that would go as 8bit as 7bit in us-ascii, any other as the message is set |
| MimeContent.TextsSay | fluxcp/lib/phpmailer/class.phpmailer.php:2245-2348 | which type, character set and encoding the headers of the texts announce, for each kind of message |
| MimeContent.WhatIsSaid | fluxcp/lib/phpmailer/class.phpmailer.php:2245-2348 | which texts a message has, and in which order |
| MimeContent.SaidOnce | fluxcp/lib/phpmailer/class.phpmailer.php:2587-2600 | of two attachments of a disposition that are equal, or inline with one content id, only the first is printed |
| MimeContent.UnlikeIsSaid | fluxcp/lib/phpmailer/class.phpmailer.php:2587-2600 | an attachment unlike all before it is |
| MimeContent.AttachedToMain | fluxcp/lib/phpmailer/class.phpmailer.php:2245-2348 | attachments are beside the main part in a mixed multipart |
| MimeContent.AlternativesInMain | fluxcp/lib/phpmailer/class.phpmailer.php:2245-2348 | the main part offers plain text and HTML as alternatives, in this order |
| MimeContent.InlinesBesideBody | fluxcp/lib/phpmailer/class.phpmailer.php:2245-2348 | inline attachments are beside the body they belong to in a related multipart |
| Delivery.DeliveredIsLayout | fluxcp/lib/phpmailer/class.phpmailer.php:1570 | what the server receives between DATA and the dot reads as the layout of the message, with other line breaks in its bodies normalised and long body lines cut, if no line that arrives looks like a delimiter |
| Delivery.ShortIsDelivered | fluxcp/lib/phpmailer/class.phpmailer.php:1570 | a message without lines over the limit is received as its layout with normalised line breaks |
| Delivery.SendableIsDelivered | fluxcp/lib/phpmailer/class.phpmailer.php:1570 | a message without lines over the limit and without other line breaks is received as its layout |
| ConfigTree.Config.GetValue | fluxcp/lib/Flux/Config.php:111-151 | the walk finds the value at the dotted key, or null |
| ConfigTree.Config.GetConfig | fluxcp/lib/Flux/Config.php:131-137 | an array is returned as a node that refers to it in the same tree |
| ConfigTree.Config.GetChildrenConfigs | fluxcp/lib/Flux/Config.php:88-97 | a node for each child that is an array, and for nothing else |
| ConfigTree.Config.Set | fluxcp/lib/Flux/Config.php:166-195 | the walk, creating nodes on the way, leaves the tree changed at the key, or at a string in the way, and gives the result |
| ConfigTree.PutIsFound | fluxcp/lib/Flux/Config.php:166-195 | a stored value is found at its key |
| ConfigTree.NotStored | fluxcp/lib/Flux/Config.php:175-191 | otherwise the tree changes if and only if a string in the way gets another byte, and exactly when it is refused |
| ConfigTree.WhatScalarsBecome | fluxcp/lib/Flux/Config.php:172-195 | a null or a false in the way becomes an array in which the value is found, true and numbers stay and nothing is stored |
| ConfigTree.PutFrames | fluxcp/lib/Flux/Config.php:166-195 | nothing changes at a path apart from the key |
| ConfigTree.PutKeeps | fluxcp/lib/Flux/Config.php:166-195 | without overwriting, a value is changed or lost if and only if the key leads through a null or a false that becomes an array or a string that gets another byte |
| ConfigTree.NullIsLost | fluxcp/lib/Flux/Config.php:166-195 | `set("A.B.C", ...)` without overwriting replaces a null at A |
| ConfigTree.StringInTheWay | fluxcp/lib/Flux/Config.php:172-195 | a string on the way takes a byte of the value and stays a string, or takes a byte of the empty array and stops the walk with an error, or makes it refuse |
| ConfigTree.StringIsSpoiled | fluxcp/lib/Flux/Config.php:188-195 | `set("A.1", "x")` without overwriting makes "axc" of "abc" |
| StringOffset.WriteChanges | fluxcp/lib/Flux/Config.php:193 | writing at a string offset changes the string if and only if the offset is not before its start and another byte, or none, is there |
| StringOffset.WhatIsWritten | fluxcp/lib/Flux/Config.php:193 | the byte is at the offset, counted from the end if negative, blanks fill a string that is too short, and all else is as before |
| StringOffset.OffsetOfNumber | fluxcp/lib/Flux/Config.php:193 | a key that starts with a number, after blanks and a sign, stands for that number, whatever follows it |
| StringOffset.OffsetWithExponent | fluxcp/lib/Flux/Config.php:193 | an exponent moves the decimal point to the right |
| StringOffset.OffsetWithNegativeExponent | fluxcp/lib/Flux/Config.php:193 | or to the left, without the fraction |
| ConfigTree.FirstByteIsPrinted | fluxcp/lib/Flux/Config.php:193 | the byte that is written is the first one PHP prints for the value |
| ConfigTree.PutBelow | fluxcp/lib/Flux/Config.php:88-97 | a write through a child node is the write through its parent with the keys joined |
| ConfigTree.GetAfterSet | fluxcp/lib/Flux/Config.php:111-195 | get after set gives the value if and only if the key is one that get looks up |
| ConfigTree.StoredNotFound | fluxcp/lib/Flux/Config.php:111-195 | a value is stored under "0" and not found again |
| ConfigTree.ArrayMergeRecursiveDistinct | fluxcp/lib/Flux/Config.php:277-292 | the recursive loop gives the merge of the two trees, in any order of the keys |
| ConfigTree.Config.MergeDistinct | fluxcp/lib/Flux/Config.php:238-248 | the node's array becomes the merge, in place |
| ConfigTree.MergeIntoEmpty | fluxcp/lib/Flux/Config.php:277-292 | merging into the empty tree gives the import |
| ConfigTree.MergeTwice | fluxcp/lib/Flux/Config.php:277-292 | merging the same import again changes nothing |
| ConfigTree.ImportWins | fluxcp/lib/Flux/Config.php:280-288 | a leaf of the import, a scalar or an empty array, comes out as imported at any depth, if and only if it is a scalar, or below a key to clear, or the base has nothing in an array there |
| ConfigTree.MergedAt | fluxcp/lib/Flux/Config.php:277-292 | at any path of the import the merge holds the import's value, or the merge of both arrays when both have one and no key on the way is to clear |
| ConfigTree.EmptyArrayLoses | fluxcp/lib/Flux/Config.php:284-286 | an empty array of the import leaves the base's array as it is |
| ConfigTree.UntouchedIsKept | fluxcp/lib/Flux/Config.php:277-292 | a path of the base that the import has no key on is unchanged |
| ConfigTree.ArraysKeepBothKeys | fluxcp/lib/Flux/Config.php:284-286 | where both have an array, at any depth, the keys are united, or those of the import alone below a key to clear |
| ServersConfig.ParseServersConfig | fluxcp/lib/Flux.php:353-488 | succeeds if and only if the filled tree is acceptable, and then leaves the tree in normal form, for any order of the groups |
| ServersConfig.NormaliseGroup | fluxcp/lib/Flux.php:379-410 | sections, databases, login server and servers of a group are filled in place, or the group is rejected |
| ServersConfig.NormaliseServers | fluxcp/lib/Flux.php:412-484 | the servers of a group are filled, named apart and have their endpoints, or the group is rejected |
| ServersConfig.FillKeeps | fluxcp/lib/Flux.php:379-398 | filling keeps what is there, and adds each missing default and nothing else |
| ServersConfig.NormalKeepsUserValues | fluxcp/lib/Flux.php:353-488 | no value the user has set is changed or lost, at any depth |
| ServersConfig.NormalIsStable | fluxcp/lib/Flux.php:353-488 | normalising again changes nothing |
| ServersConfig.AcceptedIsComplete | fluxcp/lib/Flux.php:379-464 | an accepted group has every section and every default |
| ServersConfig.NamesAreDistinct | fluxcp/lib/Flux.php:369-377 | group names are pairwise different, and so are the server names within each group |
| ServersConfig.WhichFilesAreAccepted | fluxcp/lib/Flux.php:360-374 | a file is accepted if and only if its groups are in order and named apart, and it has one or is an import |
| ServersConfig.WhichGroupsAreOk | fluxcp/lib/Flux.php:369-484 | a group is in order if and only if it has a name, three database sections, address and port of a login server, and servers in order that are named apart, at least one entry |
| ServersConfig.WhichServersAreOk | fluxcp/lib/Flux.php:460-483 | a server is in order if and only if it has a name, and its char server and map server each an address and a port |
| ServersConfig.DatabaseDefaults | fluxcp/lib/Flux.php:390-395 | host, user, password and persistence of a database are the user's, or the defaults |
| ServersConfig.LoginDefaults | fluxcp/lib/Flux.php:397-398 | so are database name and password hashing of a login server |
| ServersConfig.ServerDefaults | fluxcp/lib/Flux.php:453-458 | and rates, renewal mode and database name of a server |
| ServersConfig.DatabaseIsInherited | fluxcp/lib/Flux.php:397-458 | a login server or server without a database name gets that of the group's own database |
| Bitmap.StrideIsWholeWords | fluxcp/lib/functions/imagecreatefrombmpstring.php:35-36 | size plus padding of a row is the least number of whole 32-bit words |
| Bitmap.LinesAreDisjoint | fluxcp/lib/functions/imagecreatefrombmpstring.php:37-38 | the rows read lie in the pixel data and do not overlap |
| Bitmap.ReadPalette | fluxcp/lib/functions/imagecreatefrombmpstring.php:20-34 | the loop reads each entry of four bytes, with its alpha |
| Bitmap.Image.SetPixel | fluxcp/lib/functions/imagecreatefrombmpstring.php:49 | draws one pixel of its row, and nothing outside of the image |
| Bitmap.Image.DrawLine | fluxcp/lib/functions/imagecreatefrombmpstring.php:39-89 | a row of 24, 8, 4 or 1 bits a pixel is drawn as its bytes say, and no other row changes |
| Bitmap.ImageCreateFromBmpString | fluxcp/lib/functions/imagecreatefrombmpstring.php:8-93 | for any bytes: no image, or the image with every pixel as described |
| Bitmap.WhichAreRead | fluxcp/lib/functions/imagecreatefrombmpstring.php:9-14 | bytes are an image if and only if they have both headers, start with BM and have columns and rows; numbers are stored with the low byte first |
| Bitmap.WhichEntries | fluxcp/lib/functions/imagecreatefrombmpstring.php:19-34 | an index stands for the entry that starts before the pixel data, and for black if there is none |
| Bitmap.OtherDepthsAreBlack | fluxcp/lib/functions/imagecreatefrombmpstring.php:37-91 | with any other depth every pixel is black |
| Bitmap.CutShort | fluxcp/lib/functions/imagecreatefrombmpstring.php:24-88 | a file that is cut short is drawn as if zeros followed |
| Bitmap.DecodeInvertsEncode | fluxcp/lib/functions/imagecreatefrombmpstring.php:8-93 | decoding an encoded picture of any size and depth gives the colour of every pixel |
| Bitmap.WhatIsTransparent | fluxcp/lib/functions/imagecreatefrombmpstring.php:30-31 | a pixel of an encoded picture is drawn with the documented alpha if and only if the two tests of its stored colour agree |
| Bitmap.MagentaIsDrawnOpaque | fluxcp/lib/functions/imagecreatefrombmpstring.php:30-60 | a magenta pixel is drawn opaque, and a nearly black one transparent |
| Bitmap.SuchAPicture | fluxcp/lib/functions/imagecreatefrombmpstring.php:30-60 | there is a picture with two such pixels |
| Paginator.FluxPaginator.CalculatePages | fluxcp/lib/Flux/Paginator.php:148-151 | the number of pages is the least that holds all rows |
| Paginator.FluxPaginator.GetLimit | fluxcp/lib/Flux/Paginator.php:206-207 | the rows selected are those of the current page |
| Paginator.FluxPaginator.GetHTML | fluxcp/lib/Flux/Paginator.php:217-281 | the links of the current pane with its previous and next links, or none |
| Paginator.WindowsPartitionRows | fluxcp/lib/Flux/Paginator.php:206-207 | every row is on exactly one of the pages |
| Paginator.EmptyPages | fluxcp/lib/Flux/Paginator.php:206-207 | a page has rows if and only if it is not after the last |
| Paginator.CurrentIsListed | fluxcp/lib/Flux/Paginator.php:224-252 | the current page is among the links if and only if it exists |
| Paginator.NextLeadsOn | fluxcp/lib/Flux/Paginator.php:224-235 | the next link leads to the start of the following pane |
| Paginator.PrevLeadsBack | fluxcp/lib/Flux/Paginator.php:234-260 | the previous link leads to the pane before, whose next link leads back |
| Paginator.NextListsAll | fluxcp/lib/Flux/Paginator.php:224-260 | following the next links ends and lists every page from here once, in order |
| Paginator.PaneSize | fluxcp/lib/Flux/Paginator.php:224-232 | a pane has one page too many exactly when the last page would be alone in the next |
| Paginator.PaneSays | fluxcp/lib/Flux/Paginator.php:224-260 | which links `GetHTML` prints for any page: the pages of its pane that exist, in order, the last page of the pane before in front, the first page of the pane after at the end, each if and only if it is due |
| Paginator.OneLinkTooMany | fluxcp/lib/Flux/Paginator.php:217-281 | with one row more than a pane of full pages the pane has a link too many |

## Left out

- Utf8CharBoundary: texts that are not well-formed UTF-8 although the character set is UTF-8.
- PlainPhraseReadsBack: white space in an unquoted phrase is read as it stands; a reader may collapse it.
- TextStands: white space at the ends of a field is read as it stands; a reader may drop it.
- EncodeHeader: character set names of more than 60 characters, and names that are not tokens of RFC 2047.
- Base64EncodeWrapMB: the average length is the floor of the exact quotient, not of a floating-point one.
- ReceiverGetsContent: a decoder that inverts the transfer encodings on the texts of the message is assumed, and
  the encoding field is read in the spelling the mailer prints.
- SentIsReceived: the reader knows a boundary in the two-line form that the mailer prints, so an attachment
  that is itself a multipart is a leaf for it; header fields other than the MIME ones are not part of the text.
- DeliveredIsLayout: messages with a line break of another kind or more than 998 bytes in a header line, of the
  message or of a part; with CR as line ending, bodies that start with LF.
- PreSend: the queue of addresses before it, and DKIM, mail headers and punycode after the checks; whether a
  trimmed sender address is valid is a parameter.
- CreateBody: word wrapping of the body, S/MIME signing, and messages sent with `mail()`; attachment hashes are
  equality; transfer encodings are functions that may fail.
- LedgerAgrees: more than one login group, a notification replayed after it is logged, and runs with a step
  that breaks the agreement; `Ledger.NoticeAgreement` and `Ledger.HeldAgreement` say exactly which do.
- HeldAgreement: accepted payments of negative credits, which no notification above a minimum of 0 writes
  (`Ledger.CreditsAreNatural`).
- TransferCredits: unsigned columns and concurrent requests.
- Set: a node whose array is replaced from above keeps the old array in PHP, and follows the path here; values
  that are floating-point numbers or objects, PHP's warnings, and string offsets beyond the memory.
- ParseServersConfig: a `Database` setting that is an array is copied, not wrapped in an object; the text of the
  error messages.
- ArrayMergeRecursiveDistinct: the order of keys in an array; a PHP version that takes the key 0 for a key to
  clear has it in the set of keys to clear.
- `array_merge` and `array_merge_recursive`, the other two ways to merge: library code.
- GetHTML: the HTML around the links, the page jump, and fractional page numbers; float division is exact.
- ImageCreateFromBmpString: GD's limits on image size.
- The queue of internationalised addresses, address syntax, DKIM, sockets and TLS.
- SQL text, collations, time zones, sessions, templates, themes, menus, language files, module pages,
  registration checks, HTTP calls and the map conversion scripts: input/output or data with easy claims only.
