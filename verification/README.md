# gloox, verified

This project models the hard parts of gloox, an XMPP client library, and proves what they promise. The
modules follow the library's files:

- `StreamManagement` and `SmProtocol` (XEP-0198): the client's retransmission queue, counters and context,
  and the client joined with a server by links that keep order and can be cut; `SmAcks`, what the client
  acknowledges and the server may forget for it; `SmSettings`, turning it on and off.
- `Bits`, `ScramKeys`, `Scram` and `ScramExchange` (RFC 5802, RFC 2104): HMAC, Hi, the reading of the server's
  messages, and the exchange with a server that keeps derived keys only. The hash is any function to
  twenty bytes.
- `BoshReceive` and `BoshSend` (XEP-0124): taking HTTP responses out of a byte stream, and sending with a
  buffer, request ids, a window and two lists of connections; `BoshModes`, when the mode falls back to HTTP/1.0;
  `BoshProgress`, how long data waits.
- `InBandBytestream` (XEP-0047) over `Base64` (RFC 3548) and `Decimal`.
- `JidEscaping` (XEP-0106) and `JidParsing`, with the size arithmetic of `std::string` in `CxxString`.
- `XmlTag`, `DataFormField` and `DataForm` (XEP-0004), `Disco` (XEP-0030) and `Capabilities` (XEP-0115),
  with the order of strings in `Ordering`; `Elements`, where others find what is printed; `CapsReading`, a reader
  of the string that is hashed.

Code that changes state is a class or a method with loops. Each such method is proved equal to a function of
the old state (`AfterSend`, `Deframed`, `Generated` and so on); the properties are lemmas about these
functions. Bytes are characters below 256 (`Base64.Bytes`); shifts and masks are written as division and
remainder. Sizes wrap around at 64 bits, numbers that are read have the widths of int and long, and texts that
must not be in XML are dropped, as in the library. Data handed to and coming from the surroundings (time,
randomness, whether a socket takes data, addresses of objects) are parameters.

Where the code misses a property, the exact condition under which it has it is proved:

- BOSH responses may be cut into chunks anywhere if and only if no header with bytes behind it is too short, has
  another status than 200, or announces a negative length that wraps around (`ChunksDoNotMatter`). The receiving
  loop never ends if and only if one of the complete responses ends at zero (`LoopEnds`), which is the case if and
  only if its length is that of its own header, negated (`EndsAtZero`; a concrete one is in `Endless`).
- A stream restart that goes out while data is buffered drops the data (`StepConserves`); giving up
  pipelining with more requests open than connections active leaves answers without a connection
  (`StepServed`). `DroppedRun` and `UnservedRun` come to such states.
- Sending between `<enable/>` and `<enabled/>`, between `<resume/>` and `<resumed/>`, or from inside the
  connect handler of a resumed stream loses, reorders or repeats stanzas (`SendWhileEnabling` with
  `EarlyAcknowledged`, `SendWhileResuming` with `EarlyAfterResuming`, `SendOnResumed`).
- A server nonce with `s=` or `i=` in it, which RFC 5802 allows, is misread, but for some messages
  (`ParsesFirstMessage`); a GS2 header other than `n,,` is answered with the channel binding data of `n,,`
  (`Agreement`); a user name or identity with a comma or an equals sign is not escaped (`StartRead`).
- The announced capabilities hash covers the form, and features and identities that elements cannot tell; the
  answer to a query for it does not (`PeerAgrees`).
- Whether the server lets a session be resumed is noted, but not used (`AsksAnyway`); turning Stream Management
  off, even if it is turned on again, gives the session up (`Resumable`).
- An empty write to a bytestream closes it at the receiver (`EndToEnd`).
- `Jid` looks for the first `@` even behind a slash and takes any text for a node: parts whose printed form is cut
  otherwise are those with an `@` in the node, a slash in the server, or an `@` behind no node (`CutFull`), and
  `setJID` on an object used before keeps old parts (`StaleParts`).
- A copied data form has no items (`CopyPrints`), although its documentation promises a copy of the given form.

## Model

The results come first, the operations they are about behind them.

| member | source | states |
|---|---|---|
| SmProtocol.ExactlyOnce | src/clientbase.cpp:1036-1097 | on every run, either side has handled a prefix of what the other sent, and the client's counter is the number of stanzas it handled |
| SmProtocol.InFlight | src/client.cpp:335-345 | while a session's link is up, and so right after a resumption, handled and in-flight stanzas together are exactly all that were sent, in both directions |
| SmProtocol.NothingLost | src/clientbase.cpp:1099-1108 | on every run, what was acknowledged followed by what sendQueue gives is all that was sent |
| SmAcks.AcksAreTrue | src/client.cpp:642-650 | on every run, the numbers the server was told, with those on the way, are those of the stanzas delivered at the moments the client had to tell, the last is what the server takes for acknowledged, and what the client got followed by what the server keeps behind that is all it sent |
| SmAcks.ToldTruly | src/client.cpp:642-650 | in every reachable state with a session's link up, answering a request or volunteering an acknowledgement writes exactly the number of stanzas delivered; the resume request carries it too |
| SmAcks.ResentFromMemory | src/client.cpp:630-638 | a server that remembers the acknowledged number and the stanzas behind it only sends again, on a resume request, exactly what the client has not got |
| SmAcks.BooksKept | src/client.cpp:642-650 | every allowed step keeps these books |
| SmSettings.Resumable | src/client.cpp:596-640 | however often Stream Management is set while the link is down: the session is asked for on the next link if and only if it is on at the end, and resumed if and only if it was never turned off |
| SmSettings.AsksAnyway | src/client.cpp:320-327 | resumption is noted as allowed if and only if there is an id and the attribute is true or 1, but asked for either way |
| SmSettings.TurnedOn | src/client.cpp:596-626 | turned on with a resource bound, the client enables at once, with the wish for resumption it was given |
| SmProtocol.SendWhileEnabling | src/clientbase.cpp:1048-1056 | for every list of stanzas sent while the enable request is under way: the numbering and the invariant of the runs hold afterwards if and only if the list is empty |
| SmProtocol.EarlyAcknowledged | src/clientbase.cpp:1048-1056 | what comes of such a list: at the next acknowledgement as many of the following stanzas leave the queue unhandled as it has stanzas, as far as there are so many |
| SmProtocol.LostAfterEnabling | src/clientbase.cpp:1048-1056 | one run in which the next stanza is lost with the link that way |
| SmProtocol.SendWhileResuming | src/clientbase.cpp:1048-1056 | for every list of stanzas sent while the session is being resumed, before or after the server reads the request: handled and in-flight stanzas are all that were sent, in order, if and only if the list and what the server has missed commute; for stanzas unlike those missed, if and only if one of the two is empty |
| SmProtocol.EarlyAfterResuming | src/clientbase.cpp:1048-1056 | what comes of such a list: at the next acknowledgement as many of the missed and following stanzas leave the queue unhandled as it has stanzas, as far as there are so many |
| SmProtocol.ReorderedRun | src/clientbase.cpp:1048-1056 | one run in which a stanza arrives before the one that was lost with the link |
| SmProtocol.SendOnResumed | src/client.cpp:341-342 | stanzas sent from the connect handler of a resumed stream go out twice: the stanzas in flight are right if and only if there are none |
| SmProtocol.KeptByStep | src/client.cpp:320-370 | every allowed step of client, server and links keeps the invariant |
| SmProtocol.KeptByResumption | src/client.cpp:334-344 | what is written again on resumption is just what the server has not handled |
| SmProtocol.QueueAfterSend | src/clientbase.cpp:1048-1053 | the queue's keys stay exactly the interval from the highest acknowledgement to the number of sent stanzas, so no number collides |
| SmProtocol.QueueAfterCheck | src/clientbase.cpp:1078-1096 | an acknowledgement or resend moves the lower end of that interval and nothing else |
| SmProtocol.ValuesOfQueue | src/clientbase.cpp:1087-1091 | a resend from any number on gives the rest of what was sent, in order |
| StreamManagement.ChecksCombine | src/clientbase.cpp:1073-1097 | two acknowledgements amount to the higher one |
| StreamManagement.StaleCheck | src/clientbase.cpp:1078-1085 | an acknowledgement changes nothing if and only if every queued number is above it |
| ScramExchange.Agreement | src/clientbase.cpp:742-783 | for every nonce without commas, salt and count: a server with the keys of the same password accepts the proof if and only if the header is n,,, the nonce holds no s= and the keys match, which they do whenever the message was read as it was meant |
| ScramExchange.ServerChecked | src/clientbase.cpp:776-777 | a verifier is accepted if and only if it is the signature of a server with the key of the same password, over the same messages |
| ScramExchange.StartRead | src/clientbase.cpp:522-548 | of what is sent first, for all identities, names and nonces: a server splits off the flag and the identity to act as and reads the name and the nonce that are meant, if and only if neither name nor identity holds a comma or an equals sign, which the client does not escape |
| ScramExchange.BareRead | src/clientbase.cpp:540-546 | the same for the message without its header: the name meant is the authentication identity if there is one of usable length, else the user name, else none |
| ScramExchange.NameRead | src/clientbase.cpp:540-546 | for any name in such a message |
| ScramExchange.PlainHeaderSent | src/clientbase.cpp:522-539 | the header is n,, if and only if the channel binding mechanism is available and no usable authorization identity is set |
| ScramExchange.SuccessChecked | src/clientbase.cpp:962-964 | of the encoded verifiers only the one with the expected signature is accepted |
| ScramExchange.KeyRecovered | src/clientbase.cpp:758-775 | the server's exclusive or gives back the client key, whose hash is the stored key |
| ScramExchange.Answer | src/clientbase.cpp:758-780 | the answer and the expected signature, spelled out as section 3 of RFC 5802 does |
| ScramExchange.Biws | src/clientbase.cpp:767 | biws is the Base64 of n,, and of nothing else |
| Scram.ParsesFirstMessage | src/clientbase.cpp:744-753 | for every nonce, salt and count the three searches recover all of them if and only if: no s= is in the nonce, and without an i= in it the count is an int, with one the salt's length is no multiple of three and the text behind that i= reads as the count |
| Scram.NonceRecovered | src/clientbase.cpp:744-750 | the nonce is recovered if and only if it holds no s= |
| Scram.CountFromNonce | src/clientbase.cpp:746-753 | with an i= in the nonce, whatever else is in it, the count is what atoi makes of the text behind the first one |
| Scram.SaltFromNonce | src/clientbase.cpp:751 | with an i= and no s= in the nonce, the salt is recovered if and only if its length is no multiple of three |
| Scram.LuckyNonce | src/clientbase.cpp:744-753 | a message with i= in the nonce that is read as it was meant |
| Scram.EncodedHasNoKey | src/base64.cpp:48-62 | Base64 text never holds i followed by an equals sign, nor a comma |
| ScramKeys.PromotedXor | src/clientbase.cpp:719-722 | the sign extension never reaches the low byte |
| ScramKeys.HmacBlocks | src/clientbase.cpp:681-710 | of the two hashed blocks one is the key with bits 1, 2, 4 and 5 of every byte turned round, the other with bits 2, 3, 4 and 6, filled up with null bytes and hashed before if it is long |
| ScramKeys.FirstBlockIsOne | src/clientbase.cpp:716-717 | what is put behind the salt is the number one in four bytes, the highest first |
| ScramKeys.XorBytesTwice | src/clientbase.cpp:772-775 | a second exclusive or with the same bytes undoes the first |
| Bits.XorTwice | src/clientbase.cpp:774-775 | the same, for numbers |
| Bits.XorLow | src/clientbase.cpp:722-726 | the bits a cast keeps of an exclusive or depend only on the bits kept of the operands |
| Bits.BitOfXor | src/clientbase.cpp:774-775 | a bit of an exclusive or is set if and only if the operands differ in it |
| BoshReceive.ChunksDoNotMatter | src/connectionbosh.cpp:362-409 | for every byte stream: all ways of cutting it into chunks that are not empty have the same effect if and only if there is no place where a cut shows, with bytes behind a header that is too short, has another status than 200, or whose length wraps around |
| BoshReceive.DeframedLater | src/connectionbosh.cpp:365-408 | where no cut shows, handling bytes now and more later is the same as handling all later |
| BoshReceive.CutShows | src/connectionbosh.cpp:369-402 | cutting where a cut shows, between two bytes, has another effect than not cutting, on every byte stream |
| BoshReceive.NegativeLength | src/connectionbosh.cpp:381-399 | for every negative length no longer than the header and every body: a cut shows behind the header |
| BoshReceive.OtherStatus | src/connectionbosh.cpp:371-379 | every status other than 200, with whatever length and body: a cut shows behind the header, as no data is handed over once it has disconnected |
| BoshReceive.LoopEnds | src/connectionbosh.cpp:367-408 | for every buffer: the loop goes on forever if and only if one of the complete responses at its front ends, after the wrap-around, at zero |
| BoshReceive.EndsAtZero | src/connectionbosh.cpp:381-399 | a response ends at zero if and only if the length in its header is that of the header with the empty line, negated |
| BoshReceive.Endless | src/connectionbosh.cpp:367-399 | one such header: the loop never ends, whatever follows |
| BoshReceive.Deframing | src/connectionbosh.cpp:362-409 | for well-formed responses in any chunks the bodies fed to the parser are those sent, in order, and nothing is left |
| BoshReceive.AnnouncedIsWellFormed | src/connectionbosh.cpp:369-382 | every header with status 200 whose first Content-Length line, in whatever case, holds the length of the body makes a well-formed response |
| BoshReceive.ShortestIsWellFormed | src/connectionbosh.cpp:369-382 | a minimal header is well-formed for every body: its announced length is read back |
| BoshReceive.FieldFound | src/connectionbosh.cpp:314-338 | a header field's value is found in whatever case its name is written |
| BoshReceive.PutsFallBack | src/connectionbosh.cpp:385-398 | one connection is put back for every body fed, under a mode that only ever changes to that of HTTP/1.0 |
| BoshModes.FallsBack | src/connectionbosh.cpp:385-391 | a complete header changes the mode if and only if it announces a length, the mode is another than that of HTTP/1.0, and it starts with HTTP/1.0 or its first Connection line holds close and nothing else |
| BoshModes.CloseRead | src/connectionbosh.cpp:314-338 | the field reads as close if and only if the first such line, in whatever case, is that |
| BoshModes.ModesOfResponses | src/connectionbosh.cpp:362-409 | over well-formed responses in any chunks, each connection is put back under the mode of the start if and only if neither that response nor one before gives the connection up; without such responses nothing changes the mode |
| BoshSend.EverySession | src/connectionbosh.cpp:188-409 | over every interleaving of sending and receiving in which only open requests are answered and pipelining is not given up too early: ids are consecutive, the open requests are those sent less the bodies fed, each has a connection to be answered on, both sides agree on the mode, and the two lists hold every connection exactly once |
| BoshSend.SessionsBegin | src/connectionbosh.cpp:411-436 | connecting a fresh object is where such runs begin |
| BoshSend.ReceivedData | src/connectionbosh.cpp:393-402 | every body fed to the parser closes one open request and puts its connection back under the mode recorded, provided every open request has a connection |
| BoshSend.Conservation | src/connectionbosh.cpp:188-307 | over every run in which no restart goes out over a filled buffer, payloads sent followed by the buffer are all data given to send |
| BoshSend.StepConserves | src/connectionbosh.cpp:188-272 | a step keeps all data if and only if it does not ask for a restart, with the session up, the window free, a connection ready that takes the request, and data in the buffer |
| BoshSend.DroppedRun | src/connectionbosh.cpp:246-262 | one run in which data that waits for the window is dropped by a restart |
| BoshSend.SendXmlConserves | src/connectionbosh.cpp:246-262 | the same for one call of sendXML |
| BoshSend.SendXmlData | src/connectionbosh.cpp:219-272 | a call of sendXML puts a request on the wire, with the next id and the buffer, just if the guards let it; else nothing changes in buffer and id |
| BoshSend.EveryRun | src/connectionbosh.cpp:240-302 | request ids on the wire are consecutive despite failures, open requests are those sent and unanswered, and the two lists hold every connection exactly once |
| BoshSend.StepOrderly | src/connectionbosh.cpp:553-558 | a step sends at most one request, and only if none is open or fewer than the server allows |
| BoshSend.RunsBegin | src/connectionbosh.cpp:411-436 | connecting a fresh object establishes all of this |
| BoshSend.StepServed | src/connectionbosh.cpp:448-454 | every open request keeps a connection to be answered on if and only if pipelining is not given up with more requests open than connections active |
| BoshSend.UnservedRun | src/connectionbosh.cpp:448-454 | one run that leaves an open request without a connection |
| BoshProgress.Progress | src/connectionbosh.cpp:551-619 | data that waits for a connection only goes out with the poll whose number is that of the first pooled connection that is up, and not before |
| BoshProgress.NoProgress | src/connectionbosh.cpp:551-619 | while none of them is up, no number of polls sends or loses anything |
| BoshProgress.NewConnection | src/connectionbosh.cpp:573-600 | with every connection busy and no pipelining, a try makes a new connection, and the next one sends on it if it is up |
| BoshProgress.LeastLimit | src/connectionbosh.cpp:484-493 | over every run the window is the least the server announced, or what it was |
| InBandBytestream.FaultyChannel | src/inbandbytestream.cpp:169-215 | under any loss, repetition or reordering within 65536 positions the handler is given exactly the chunks before the first that is out of order |
| InBandBytestream.EndToEnd | src/inbandbytestream.cpp:54-96 | over a channel that keeps all, through the elements, the writes before the first empty one arrive, all of them if none is empty, and the stream stays open if and only if none is; with a stream id that must not be in XML nothing arrives |
| InBandBytestream.WholeSession | src/inbandbytestream.cpp:169-215 | from a receiver never opened, an open element, the chunks of any writes and a close element, through their elements: exactly the writes before the first empty one are delivered, all if none is empty, and the stream is closed, whatever arrives before or behind unless it opens the stream |
| InBandBytestream.Accepted | src/inbandbytestream.cpp:169-215 | an element is accepted if and only if it opens the stream, closes it as asked, or its data is handed on; any other closes an open stream |
| InBandBytestream.AsSpecified | src/inbandbytestream.cpp:54-96 | each element is named as in XEP-0047 and has stream id, number, block size and data where the specification puts them |
| InBandBytestream.Taken | src/inbandbytestream.cpp:194-212 | an open receiver takes an arriving chunk if and only if it is a multiple of 65536 positions off the expected one |
| InBandBytestream.FromToTag | src/inbandbytestream.cpp:54-96 | the element tells everything about a chunk, an open or a close, but for a stream id that must not be in XML |
| InBandBytestream.ChunksMakeUp | src/inbandbytestream.cpp:265-276 | the chunks make up the data, none is larger than a block, and one is empty only if the data is |
| InBandBytestream.SendsAddUp | src/inbandbytestream.cpp:258-279 | several sends number the chunks of all of them without a gap |
| Base64.DecodeEncode | src/base64.cpp:38-122 | decoding undoes encoding on every byte string |
| Base64.EncodeDecode | src/base64.cpp:38-122 | encoding undoes decoding if and only if the text is canonical |
| Base64.DecodeBehind | src/base64.cpp:83-122 | text behind an encoding is decoded too, unless padding ends the encoding |
| Base64.EncodedIsCanonical | src/base64.cpp:38-81 | what is encoded is canonical text |
| Base64.EncodedLength | src/base64.cpp:38-81 | four digits for every three bytes begun |
| Base64.DigitsAreBytes | src/base64.cpp:38-81 | wherever in the input three bytes stand, their number is that of the four digits at the same place; a shorter end has its bits in front and the padding behind |
| Base64.AlphabetIsTable1 | src/base64.cpp:22 | the digits are those of table 1 of RFC 3548, in its order |
| Decimal.AtoiIntText | src/util.h:250-281 | what int2string writes is read back by atoi, negative numbers too |
| Decimal.AtoiNumeral | src/clientbase.cpp:753 | a numeral is read back by atoi, whatever other than a digit follows it, if and only if it is an int |
| Decimal.AtolNumeral | src/connectionbosh.cpp:381 | a numeral is read back by atol, up to the largest long |
| JidEscaping.UnescapeEscape | src/jid.cpp:87-121 | unescaping undoes escaping, on every string |
| JidEscaping.EscapeUnescape | src/jid.cpp:87-121 | escaping undoes unescaping if and only if the text is an escaped one |
| JidEscaping.EscapeInjective | src/jid.cpp:87-103 | different nodes have different escaped forms |
| JidEscaping.EscapedHasNoForbidden | src/jid.cpp:87-103 | none of the nine characters a node may not hold is left |
| JidEscaping.CodeIsNumber | src/jid.cpp:91-100 | each code is the hexadecimal number of its character |
| JidEscaping.EncodingPass | src/jid.cpp:91-100 | each escaping pass extends the substitution by one row of the table |
| JidEscaping.DecodingPass | src/jid.cpp:109-118 | each unescaping pass extends the decoder by one row, as no earlier pass makes a sequence |
| JidParsing.CutFull | src/jid.cpp:30-46 | for all parts: cutting the printed address gives them back if and only if no at sign is in the node, no slash in the server, and, without a node, no at sign in server or resource |
| JidParsing.FullCut | src/jid.cpp:30-85 | printing the cut address gives it back if and only if no separator stands before or behind nothing |
| JidParsing.StaleParts | src/jid.cpp:33-42 | on an object used before, the printed form is that of a fresh one if and only if nothing old shines through |
| JidParsing.ServerSubstr | src/jid.cpp:36 | the wrap-around of the subtraction cuts out the server whichever separator is missing |
| XmlTag.AttributeAdded | src/tag.cpp:354-391 | an attribute that was given reads as its value if name and value may be in XML, every other one as before |
| DataFormField.ReadPrint | src/dataformfield.cpp:41-135 | a printed field reads back normalized: booleans 0 or 1, single-valued types cut to the first value, options for list types only, texts that must not be in XML gone |
| DataFormField.NormTwice | src/dataformfield.cpp:41-135 | normalizing once is enough |
| DataFormField.NormPrints | src/dataformfield.cpp:91-135 | normalizing does not change the element if and only if the description may be in XML and the labels, as far as they may, are in order |
| DataFormField.Survives | src/dataformfield.cpp:41-135 | a field survives printing and reading if and only if it is in normal form |
| DataFormField.SameElement | src/dataformfield.cpp:91-135 | fields with the same element have the same normal form, and the other way round where normalizing does not change the elements |
| DataFormField.ReadOrdered | src/dataformfield.cpp:77-82 | whatever the element, the options are in the order of their labels |
| Elements.FieldAsSpecified | src/dataformfield.cpp:91-135 | a field's element has type, name, label, values, options, description and the mark of a required field under the names XEP-0004 gives them; a boolean tells 1 if and only if it has a value other than false and 0 |
| DataForm.ReadPrintForm | src/dataform.cpp:64-137 | a printed form reads back normalized, with reported and item parts of any length |
| DataForm.NormFormTwice | src/dataform.cpp:64-137 | normalizing once is enough |
| DataForm.NormFormPrints | src/dataform.cpp:108-137 | normalizing does not change the printed tree if and only if it changes no field's element and the title may be in XML |
| DataForm.FormSurvives | src/dataform.cpp:64-137 | a form survives printing and reading if and only if its texts may be in XML and all its fields are valid and in normal form |
| DataForm.CopyPrints | src/dataform.cpp:45-50 | a copy prints like its original if and only if there are no items and the elements of the reported fields are those of their normal forms |
| Elements.FormAsSpecified | src/dataform.cpp:108-137 | a form's element has its type and its parts under the names XEP-0004 gives them |
| Capabilities.PeerAgrees | src/capabilities.cpp:54-178 | a peer that asks for the announced node is answered, and computes the announced string if and only if elements can tell all identities and features and no form field is set |
| Capabilities.DirectAgrees | src/disco.cpp:364-378 | the answer to a query for the entity itself carries a copy of the form: if all identities and features are told, the strings are equal if and only if the form's text is that of the copy told; if it is, if and only if all are told |
| Capabilities.Agreement | src/capabilities.cpp:67-132 | the same for any order of identities and features and any form |
| Capabilities.CopyTold | src/dataform.cpp:45-50 | the text of a valid form in normal form is that of the copy told |
| Capabilities.AnsweredNodes | src/capabilities.cpp:62-63 | the capabilities answer for the node announced last and for no other |
| Capabilities.GeneratedUnordered | src/capabilities.cpp:69-99 | the string does not depend on the order of identities and features |
| Capabilities.GeneratedSize | src/capabilities.cpp:67-132 | the string has a character for each character and each mark, no more |
| Capabilities.NoFormText | src/capabilities.cpp:101-130 | a form leaves no trace in the string if and only if it has no field |
| CapsReading.GeneratedRead | src/capabilities.cpp:67-99 | cut at its marks, the string gives back the identities, in order, with category, type and name each, then the features, in order, then the form's part, for texts without the marks |
| CapsReading.FormRead | src/capabilities.cpp:101-130 | the form's part gives back the form types and, in the order of the names and once each, name and values of the first field so called |
| Disco.InfoBack | src/disco.cpp:56-173 | of an info the element tells the complete identities, the named features and a valid form, as far as their texts may be in XML, and nothing else |
| Elements.InfoAsSpecified | src/disco.cpp:152-173 | the element has node, identities, features and form under the names XEP-0030 and XEP-0128 give them |
| Ordering.SortedUnique | src/capabilities.cpp:82-99 | a sorted list has one arrangement only |
| Ordering.LessEqIs | src/capabilities.cpp:82-93 | a text comes first if it starts the other or has the lower character where they first differ |
| Ordering.SortPermuted | src/capabilities.cpp:82-93 | sorting forgets the arrangement and nothing else |
| StreamManagement.Client.SendTag | src/clientbase.cpp:1036-1057 | a stanza is written if the connection is up and, in an active context, queued under the next number; one already there would stay |
| StreamManagement.Client.CheckQueue | src/clientbase.cpp:1073-1097 | one pass over the ordered map erases every acknowledged entry and, on a resend, writes all others in increasing order of their numbers |
| StreamManagement.Client.SendQueue | src/clientbase.cpp:1099-1108 | gives the queued stanzas, oldest first |
| StreamManagement.Client.SetStreamManagement | src/client.cpp:596-612 | turning it off forgets the session id, turning it on sends at once if a resource is bound |
| StreamManagement.Client.SendStreamManagement | src/client.cpp:614-640 | if it is wanted, enables from the initial context and resumes from the enabled one with the counter and the session id, and does nothing in the other four |
| StreamManagement.Client.AckStreamManagement | src/client.cpp:642-650 | an active client answers with the number of stanzas it handled |
| StreamManagement.Client.HandleNode | src/client.cpp:320-370 | each node's whole effect on context, queue, counters and link, with the connect handler run before the resend |
| StreamManagement.Client.HandleDisconnect | src/clientbase.cpp:411-426 | link loss keeps context, queue and counters |
| StreamManagement.Client.HandleReconnect | src/client.cpp:187-196 | on a new stream an active session is resumed at once and an initial one enabled when a resource is bound; in the other contexts nothing more is sent |
| ScramKeys.ComputeHmac | src/clientbase.cpp:681-710 | padding the key in two arrays computes H(K^opad, H(K^ipad, m)), whatever the length of the key |
| ScramKeys.ComputeHi | src/clientbase.cpp:712-729 | accumulating sign-extended characters in ints computes U1 XOR ... XOR Ui byte by byte, and null bytes for a count that is not positive |
| ScramExchange.Client.Start | src/clientbase.cpp:517-550 | the GS2 header and first message without header that are sent and kept |
| ScramExchange.Client.ProcessChallenge | src/clientbase.cpp:731-785 | the answer and the kept server signature are those of RFC 5802 for what was parsed; an unreadable challenge leaves both |
| ScramExchange.Client.ProcessSuccess | src/clientbase.cpp:951-968 | accepts if and only if the verifier decodes to the kept signature |
| BoshReceive.Receiver.HandleReceivedData | src/connectionbosh.cpp:362-409 | the loop takes all complete responses out of the buffer, with the wrap-around of the lengths, the disconnections and the exceptions on the way; after a disconnection no more data comes |
| BoshReceive.Receiver.ReadHeader | src/connectionbosh.cpp:369-391 | what reading one header changes, and the length it announces |
| BoshSend.ConnectionBosh.ActivateConnection | src/connectionbosh.cpp:605-619 | the first pooled connection becomes active if it is up, else goes to the end of the pool |
| BoshSend.ConnectionBosh.GetConnection | src/connectionbosh.cpp:551-603 | the connection to send on, and the lists, in each mode and with a full window |
| BoshSend.ConnectionBosh.PutConnection | src/connectionbosh.cpp:621-644 | where the connection of a response goes |
| BoshSend.ConnectionBosh.SendRequest | src/connectionbosh.cpp:275-307 | a request counts as open only if a connection took it |
| BoshSend.ConnectionBosh.HandleConnect | src/connectionbosh.cpp:411-436 | the first request id is the one chosen, whether or not the request goes out |
| BoshSend.ConnectionBosh.SendXml | src/connectionbosh.cpp:219-272 | a failed attempt takes back its request id and keeps the buffer |
| BoshSend.ConnectionBosh.Send | src/connectionbosh.cpp:188-216 | data is buffered and tried; a stream header asks for a restart; a stream end is dropped |
| InBandBytestream.Bytestream.Send | src/inbandbytestream.cpp:258-279 | the loop sends the chunks of the data, numbered on modulo 65536 |
| InBandBytestream.Bytestream.HandleIq | src/inbandbytestream.cpp:169-215 | what an arriving element of any kind does to the receiver, and whether it is accepted |
| Base64.Encode64 | src/base64.cpp:38-81 | the loop that moves its index inside the body computes the grouping of three bytes into four digits of RFC 3548, padded |
| Base64.Decode64 | src/base64.cpp:83-122 | the loop decodes four digits at a time on every string, with the null character read behind the end |
| Decimal.Long2String | src/util.h:250-271 | prepending remainders gives sign and numeral in the base asked for |
| JidEscaping.ReplaceAll | src/util.cpp:177-192 | replacement in place is leftmost, does not overlap and never looks at the replacement again |
| JidEscaping.EscapeNode | src/jid.cpp:87-103 | ten replacement passes are one substitution character by character |
| JidEscaping.UnescapeNode | src/jid.cpp:105-121 | ten replacement passes are one left-to-right decoder, on every string |
| JidParsing.Jid.SetJid | src/jid.cpp:21-47 | every field after setJID, on success and on each kind of failure |
| JidParsing.Jid.constructor | src/jid.cpp:21-47 | a fresh object has the parts the address is cut into, up to one that is too long |
| JidParsing.Jid.SetBare | src/jid.cpp:78-85 | the bare address is node and server |
| JidParsing.Jid.SetFull | src/jid.cpp:71-76 | the full address adds the resource |
| DataFormField.ReadField | src/dataformfield.cpp:41-85 | the loop over the children reads the field that the element tells |
| DataForm.ReadContainer | src/dataformitem.cpp:27-39 | the loop reads every child of an item or reported element as a field |
| DataForm.DataForm.Parse | src/dataform.cpp:64-100 | which elements are forms, and the state after reading one into the object |
| DataForm.DataForm.Copy | src/dataform.cpp:45-50 | what the copy constructor takes over |
| Disco.ReadInfo | src/disco.cpp:83-111 | the loop reads identities, features and the first form |
| Disco.Disco.HandleInfo | src/disco.cpp:330-383 | the answer to a query for the entity, for a node with handlers, and for one without |
| Disco.Disco.RegisterNodeHandler | src/disco.cpp:529-532 | the handler is added to the node's |
| Disco.Disco.RemoveNodeHandlers | src/disco.cpp:534-554 | the handler goes from every node, and nodes without another handler go |
| Capabilities.Generate | src/capabilities.cpp:67-132 | sorting, marking and the map of form fields give the string of the specification |
| Capabilities.ReadForm | src/capabilities.cpp:103-116 | form types are appended in order, other fields enter the map, where the first of a name stays |
| Capabilities.AppendEntries | src/capabilities.cpp:118-129 | the map is appended in the order of its names |
| Capabilities.Capabilities.Ver | src/capabilities.cpp:54-65 | the hash of the own string, with the handler registered anew; for a received object the hash it came with |

## Left out

- Sockets, DNS, TLS, compression, mutexes and threads; every public call is one atomic step.
- XML text: elements are trees (`XmlTag.Tag`); the parser and the escaping of characters are not modelled.
- libidn: names and passwords are prepared as in a build without it, where only the length is checked.
- Counters and ids are unbounded; the 32-bit wrap-around of `m_smSent`, `m_smHandled` and rids is not modelled.
- Decimal.Atol: gives the nearest long for a numeral beyond it, and Atoi its low 32 bits, as common C libraries do; the C standard leaves both open.
- Decimal.Long2String: does not model the overflow of negating the least long.
- The Stream Management server is one that follows XEP-0198, as no server is part of the library; the maximum and location of a session are not modelled.
- SmProtocol.Allowed: does not allow a second resumption, because no branch of sendStreamManagement leads on from a resumed context; nor anything more where the link is lost while the session is being resumed: the library then binds a new resource with the old queue kept, and sendStreamManagement does nothing (src/client.cpp:189-196, 561-590, 614-640).
- ClientBase::disconnect and a new session on the same object, which keeps the queue but zeroes the counter.
- SCRAM-SHA-1-PLUS and all other SASL mechanisms.
- BOSH: the terminal body of disconnect, what disconnecting does to the transports after a status other than 200, but for that they hand over no more data (connecting the same object again is not modelled), and the reading of body elements but for the session's limits.
- BoshSend.ConnectionBosh.PutConnection: asks for an active connection, as the library takes the front of the list unchecked; StepServed tells when there is one.
- In-band bytestreams in message stanzas, whose chunks are numbered differently and which send never uses; acknowledgements of chunks; reopening a stream, which does not reset the numbers.
- JID setters for single parts and comparison of JIDs.
- Disco items, node handlers' items, software version, and queries the client itself sends; several Capabilities objects on one Disco object.
- Capabilities.Generate: does not sort the values of a form field, which XEP-0115 asks for, because the library does not.
- IQ id tracking, Jingle, file transfer over SOCKS5, and the small extensions (AMP, chat states, bookmarks and the like), which would add only easy members.
