# TreOnzLib, a model of its data structures, parsers, codecs and protocol bookkeeping

TreOnzLib is a utility library in C. This project models the parts of it whose meaning can be
stated completely, and proves what they are for. Each file models one source file or one aspect
of it; code that works in place is modelled in place, with linked nodes, arrays, cursors and loops.

* **Lists** (`MergeSort`, `ListDoubleLinked`, `List`): pointer-relinking merge sort. Heap shape,
  permutation, order and stability are proved together; insert, remove and join refine the same
  operations on a sequence.
* **Modbus** (`CrcTheory`, `CrcOrder`, `CrcRegister`, `Modbus`): the checksum is related to a
  bit-serial shift register. Linearity, the bijectivity of a step, a parity invariant and the order
  of x modulo the polynomial give what it detects in frames of any length (section 6.2.2 of MODBUS
  over Serial Line V1.02). Coil packing follows section 6.11 of the MODBUS Application Protocol
  V1.1b3.
* **JSON and XML** (`Json*`, `Xml*`, `Nodes`, `CStrings`): a parser that moves a cursor and links
  nodes, proved equal to parser functions on a text and a position; the functions invert every
  rendering of every tree, and the accepted language is determined exactly, for both formats.
* **HTTP and SIP messages** (`AbnfText`, `AbnfLines`, `AbnfRoundTrip`, `AbnfOrder`, `Abnf`) over the
  **dictionary** (`Links`, `HashBuckets`, `KeyOrder`, `Dictionary`): linked buckets that agree with a
  map for any hash function, and list their keys in an order that a second round trip keeps.
* **MQTT** (`MqttPacket`, `Mqtt`): the packet codec and the QoS 1 state machine over whole runs of
  publishes, failed sends, acknowledgements and retries.
* **Base64, SMTP bodies, substring rewriting, the growable buffer** (`Base64`, `Smtp`, `SmtpLines`,
  `StringRewrite`, `StringEx`, `Buffer`): array loops with exact round trips, bounds and
  termination.

A method is proved against a specification function; the lemmas about that function say what the
method achieves. Tables, character classes and constants that a method and its specification share
are tied to a writer, a grammar or a definition with its own table. Texts are sequences of characters read with their terminating NUL behind them.

## Where the code departs from what one expects

The code is followed as it stands.

* The RTU builder makes a frame of four bytes when there is no data, and the receive check refuses
  it: a built frame passes if and only if it has data.
* The Modbus TCP length counts function and data but not the unit identifier, on both sides; the
  standard header counts the unit identifier too. It is cut to 16 bits, and a length of zero makes the
  receiver give up, as if the connection were closed (comm/src/tcpclient.c).
* The default comparator of the doubly linked list answers 0 for elements that have not the size of
  an int, so it is an order only when sizes are not mixed or do not matter.
* A JSON escape for a surrogate pair becomes six bytes that are no UTF-8.
* The JSON that is accepted is more than RFC 8259 allows: every control character counts as white
  space, strings may hold control characters as they are, and an escape that is not known stands
  for its second character. A backslash in front of a `u` without four hex digits is dropped and the
  `u` stays. An escaped NUL ends a string or key.
* Start lines that are serialized for SMTP and IMAP are not read back: commands have too few words,
  and replies pass for requests.
* An XML closing tag may carry any name, an element may be left open at the end of the text, and a
  closing tag at the top ends the document. Attribute lists come out reversed.
* A message with a body and without headers loses the body when it is serialized and parsed: the
  blank line then starts in the line break of the start line.
* The replacement loop computes where to go on and searches from the beginning all the same. It may
  then never end: always when the old text occurs in the string and in the new one, but also for
  some new texts that do not contain the old one. For new texts that are not longer, and for texts
  that do not overlap, it is proved when it ends.
* The removal loop does not end for an empty text.
* A line break and a single dot in a field of a mail header end the message for the receiver.
* A QoS argument above 1 is not masked: it reaches the packet type, or announces an identifier that
  is not there.
* The MQTT event loop takes two bytes of a packet before it looks at it, and its acknowledgement
  branch asks for four. The handlers are modelled on complete packets; without acknowledgements the
  pending list only grows.

## Model

| member | source | states |
|---|---|---|
| `MergeSort.HalvesAreBalanced` | core/src/list.c:613-634 | the two halves of a split are non-empty and differ by at most one, which is what makes the recursion end |
| `MergeSort.SortCorrect` | core/src/list.c:661-677 | for every comparator that is a total preorder on the elements the merge sort is a sorted, stable permutation |
| `MergeSort.SortPermutes` | core/src/list.c:636-677 | whatever the comparator answers, the sort keeps exactly the elements |
| `MergeSort.SortIdentity` | core/src/listdoublelinked.c:566-596 | a comparator that never says "greater" leaves the list as it was |
| `MergeSort.SortDistinct` | core/src/list.c:661-677 | a list without repeated nodes has none after sorting, so relinking makes no cycle |
| `ListDoubleLinked.Split` | core/src/listdoublelinked.c:618-644 | cuts a chain in place into a front of the larger half and a back, both ended and with their previous links right |
| `ListDoubleLinked.MergeSorted` | core/src/listdoublelinked.c:646-685 | relinks two disjoint chains into the merge of their nodes, previous links mirrored, ties taken from the left |
| `ListDoubleLinked.MergeSortRecursive` | core/src/listdoublelinked.c:598-616 | relinks a chain into the merge sort of its nodes for any comparator at all |
| `ListDoubleLinked.List.SortWith` | core/src/listdoublelinked.c:566-596 | after the sort the list is valid (count, tail, head, both directions) and its nodes are the merge sort of the old nodes |
| `ListDoubleLinked.List.RepairLinks` | core/src/listdoublelinked.c:576-593 | one walk over a sorted chain restores previous links and tail |
| `ListDoubleLinked.List.SortDefault` | core/src/listdoublelinked.c:416-429 | the public sort is the merge sort under the default comparator |
| `ListDoubleLinked.IntsSortAscending` | core/src/listdoublelinked.c:566-700 | on int-sized elements the result is the same nodes, ascending by value, equal ints in their old order |
| `ListDoubleLinked.ZeroComparatorSortsNothing` | core/src/listdoublelinked.c:566-596 | a comparator that returns 0 throughout gives back the same sequence of nodes |
| `ListDoubleLinked.DefaultCompareConsistent` | core/src/listdoublelinked.c:687-700 | the default comparator orders a set of elements if and only if all have int size or no two ints among them differ |
| `ListDoubleLinked.MixedSizesAreNotSorted` | core/src/listdoublelinked.c:689-693 | a concrete list with elements of another size whose ints come out descending |
| `ListDoubleLinked.BackwardWalkIsReverse` | core/src/listdoublelinked.c:576-593 | in every valid list the walk from tail along previous is the reverse of the walk from head along next |
| `ListDoubleLinked.List.Insert` | core/src/listdoublelinked.c:126-181 | puts a new node at the clamped position; all other nodes keep their order; empty data is refused |
| `ListDoubleLinked.List.RemoveAt` | core/src/listdoublelinked.c:193-232 | takes exactly one position out; LONG_MAX means the last one; positions out of range change nothing |
| `ListDoubleLinked.List.RemoveValue` | core/src/listdoublelinked.c:234-273 | takes out the first node with equal size and bytes, or nothing |
| `ListDoubleLinked.List.Clear` | core/src/listdoublelinked.c:85-98 | empties the list |
| `ListDoubleLinked.List.AddNodeToHead` | core/src/listdoublelinked.c:526-544 | links a node in front, in the empty and the non-empty case |
| `ListDoubleLinked.List.AddNodeToTail` | core/src/listdoublelinked.c:546-564 | links a node behind the tail |
| `ListDoubleLinked.List.RemoveNodeFromHead` | core/src/listdoublelinked.c:476-499 | unlinks the first node and repairs head, tail and previous |
| `ListDoubleLinked.List.RemoveNodeFromTail` | core/src/listdoublelinked.c:501-524 | unlinks the last node and repairs tail and next |
| `ListDoubleLinked.List.Join` | core/src/listdoublelinked.c:449-474 | a new list of fresh copies, first the values of one list, then of the other; the inputs stay as they are |
| `ListDoubleLinked.List.MergeLists` | core/src/listdoublelinked.c:431-447 | the sorted join, again of fresh copies |
| `ListDoubleLinked.List.AppendAll` | core/src/listdoublelinked.c:703-711 | appends copies of all values of another list in order |
| `List.Split` | core/src/list.c:613-634 | cuts a chain in place into its two halves |
| `List.SortedMerge` | core/src/list.c:636-659 | relinks two disjoint chains into the merge of their nodes |
| `List.MergeSortNodes` | core/src/list.c:661-677 | relinks a chain into the merge sort of its nodes |
| `List.List.SortList` | core/src/list.c:411-430 | sorts in place under the byte comparator, finds the new tail, keeps count and node set |
| `List.SortListCorrect` | core/src/list.c:411-430 | the result is a permutation in dictionary order of the data, equal blocks in their old order |
| `List.NodeCompareIsLexicographic` | core/src/list.c:679-694 | the sign of the comparator is dictionary order of the bytes, then length |
| `List.LexBelowIsTotalOrder` | core/src/list.c:679-694 | that order is reflexive, antisymmetric, transitive and total |
| `List.List.Join` | core/src/list.c:461-499 | links the second chain behind the first in place; a missing or empty list gives back the other one |
| `Modbus.Crc16` | comm/src/modbus.c:35-50 | the two nested loops compute the register that the specification function defines |
| `Modbus.WordOfCrc` | comm/src/modbus.c:35-50 | byte by byte with a table-free reflected polynomial is the same as the bit-serial register fed one bit at a time |
| `CrcTheory.SerialLinear` | comm/src/modbus.c:38-47 | the register is linear over exclusive-or in start value and message together |
| `CrcTheory.BurstChangesRegister` | comm/src/modbus.c:38-47 | a non-zero error within 16 consecutive bits never leaves a zero register at zero |
| `CrcTheory.OddErrorChangesRegister` | comm/src/modbus.c:38-47 | an error with an odd number of bits never leaves a zero register at zero (parity invariant) |
| `Modbus.Client.BuildRtuFrame` | comm/src/modbus.c:237-252 | unit, function, data and the checksum of all of it, low byte first |
| `Modbus.CheckRtu` | comm/src/modbus.c:288-302 | accepts a frame of at least five bytes whose last two are the checksum of the rest, and gives back the rest |
| `Modbus.AcceptedIffResidueZero` | comm/src/modbus.c:296-300 | a frame passes if and only if it has five bytes and the register reads zero behind it |
| `Modbus.BuiltFrameIsReceived` | comm/src/modbus.c:237-252 | a built frame of any length passes and comes back, if and only if it has data (four bytes are too short) |
| `Modbus.UndetectedErrors` | comm/src/modbus.c:296-300 | for frames of any length: a corrupted accepted frame passes if and only if the error pattern leaves a zero register at zero |
| `Modbus.BurstIsRejected` | comm/src/modbus.c:296-300 | every corruption within 16 consecutive bits on the line is rejected |
| `Modbus.TwoAdjacentBytesAreRejected` | comm/src/modbus.c:296-300 | every corruption confined to two adjacent bytes is rejected |
| `Modbus.OddFlipsAreRejected` | comm/src/modbus.c:296-300 | every corruption that flips an odd number of bits is rejected |
| `CrcOrder.PeriodIff` | comm/src/modbus.c:38-47 | stepping the register comes back to its start after exactly the multiples of 32767 steps: the order of x modulo (x + 1)(x^15 + x + 1) |
| `CrcOrder.FrobeniusActs` | comm/src/modbus.c:38-47 | the power x^(2^k) acts on the register as a sum of x, x^2, x^4 and x^8, found by k squarings |
| `CrcOrder.TwoBitsCancelIff` | comm/src/modbus.c:38-47 | two wrong bits leave a zero register at zero if and only if their distance is a multiple of 32767 |
| `Modbus.TwoFlipsAreRejectedIff` | comm/src/modbus.c:296-300 | in frames of any length a corruption of exactly two bits is rejected if and only if their distance is no multiple of 32767 |
| `Modbus.ThreeFlipsAreRejected` | comm/src/modbus.c:288-302 | up to 4095 bytes (the receiver reads at most 256) every corruption of one, two or three bits is rejected |
| `Modbus.Client.BuildTcpFrame` | comm/src/modbus.c:215-234 | header with the wrapping transaction identifier and the length of function and data, then both |
| `Modbus.TcpFrameIsReceived` | comm/src/modbus.c:215-287 | the receiver takes function and data out of a built frame if and only if their length fits 16 bits |
| `Modbus.PackCoils` | comm/src/modbus.c:358-379 | five header bytes, then bit i mod 8 of byte i/8 set exactly when coil i is not zero |
| `Modbus.SetBit` | comm/src/modbus.c:377-378 | setting one bit of a byte changes that bit and no other |
| `Modbus.PackedCoilsUnpack` | comm/src/modbus.c:358-379 | unpacking the packed bytes gives back the coils for any count, and the padding bits are zero |
| `Nodes.Node.AppendChild` | core/src/json.c:112-130 | walks the sibling list and links the child behind its last node; parent, sibling order and every subtree below stay right |
| `Nodes.Node.SetFields` | core/src/json.c:427 | overwriting the key of a node leaves all links as they are |
| `Nodes.Node.StaysValidWith` | core/src/xml.c:147-160 | the links of a whole tree survive appending a child (the same code as in JSON) |
| `Json.SkipBlanks` | core/src/json.c:90-94 | the cursor stops at the first character that is no blank and never passes the terminator |
| `Json.ReadHexFour` | core/src/json.c:184-196 | four hex digits make the code, and the first other character refuses it |
| `Json.EmitCode` | core/src/json.c:198-214 | writes the one, two or three bytes of a code into the output array |
| `Json.UnescapeJsonString` | core/src/json.c:154-236 | the in-place index loop writes exactly the unescaped text and a NUL, within the bytes it has read |
| `Json.ParseStringLiteral` | core/src/json.c:242-267 | reads to the closing quote and gives what a reader of a char* sees of the unescaped text, or fails |
| `Json.ParseNumberLiteral` | core/src/json.c:269-306 | reads the longest number with the leading-zero, fraction and exponent rules, or fails |
| `Json.ParseValue` | core/src/json.c:449-544 | builds a valid, freshly allocated tree of nodes and moves the cursor as the specification parser does, on every input |
| `Json.ParseArray` | core/src/json.c:325-374 | the element loop builds the children in order and stops where the specification stops |
| `Json.ParseObject` | core/src/json.c:376-447 | the member loop sets keys, links values in order and fails where the specification fails |
| `Json.ParseDocument` | core/src/json.c:550-588 | null exactly when the specification refuses the text; otherwise a valid document node that spells its tree, parents and siblings included |
| `JsonText.ParseValue` | core/src/json.c:449-544 | every step that succeeds moves the position forward and stays within the text |
| `JsonRoundTrip.ValueOver` | core/src/json.c:449-544 | any rendering of any value, wherever it stands, is read back as that value |
| `JsonRoundTrip.DocumentRoundTrip` | core/src/json.c:550-588 | for every value, escaping, blank and nesting, parsing the written text yields the tree whose strings and keys are the unescaped literals up to the first NUL |
| `JsonLanguage.ParseDocumentIff` | core/src/json.c:550-588 | a NUL-free text is accepted with a tree if and only if it is a rendering of a value with that meaning: the exact language and result |
| `JsonLanguage.ExplainValue` | core/src/json.c:449-544 | whatever the value parser accepts has a concrete syntax tree whose text stands there and whose meaning is the result |
| `JsonEscapes.UnescapeInvertsWriting` | core/src/json.c:154-236 | unescaping undoes every escape, whichever way each character was written, by a table of its own |
| `JsonSpelling.SpelledDocumentRoundTrip` | core/src/json.c:550-588 | for every value tree of any depth whose strings and keys are spelled by characters and escapes in any mix, with any blanks, parsing yields the tree with the texts they denote if and only if none of them denotes a NUL |
| `JsonSpelling.MeaningIsDenotationIff` | core/src/json.c:154-236 | what the parser makes of the strings and keys of a tree is what they denote if and only if none denotes a NUL |
| `JsonSpelling.StringRoundTrip` | core/src/json.c:242-267 | a string document in any mix of escapes is read back as the text it denotes if and only if that holds no NUL |
| `JsonEscapes.Utf8IsStandard` | core/src/json.c:198-214 | the bytes for a \uXXXX hold the bits of its number, and decode to that code point under the UTF-8 rules if and only if it is no surrogate |
| `JsonEscapes.SurrogatePairIsNotUtf8` | core/src/json.c:198-214 | an escaped surrogate pair does not come out as the UTF-8 form of its character |
| `JsonTokens.Unescape` | core/src/json.c:154-236 | the unescaped text is never longer than what was read |
| `Xml.ParseName` | core/src/xml.c:89-97 | the longest run of name characters, or a failure |
| `Xml.UnescapeEntities` | core/src/xml.c:99-129 | the copying loop replaces the five entities in one pass and fits its buffer |
| `Xml.ParseQuotedValue` | core/src/xml.c:193-207 | skips blanks, takes either quote, runs to it or to the end of the text, and unescapes |
| `Xml.ParseAttributes` | core/src/xml.c:225-249 | every attribute is put in front of the list of the node; the other fields and links stay |
| `Xml.ParseElement` | core/src/xml.c:253-293 | a valid fresh element with its attributes and content, or null where the specification fails |
| `Xml.ParseNodes` | core/src/xml.c:295-398 | the loop links what it reads behind the children of a node, in order, on every input; it ends because every turn moves the cursor |
| `Xml.ParseDocument` | core/src/xml.c:402-428 | null exactly when the specification refuses the text; otherwise a valid document node that spells its tree |
| `Xml.GetAttribute` | core/src/xml.c:534-544 | the value of the first attribute with the name on the list |
| `XmlText.ParseOne` | core/src/xml.c:299-396 | every construct that is read moves the position forward, within the text |
| `XmlText.ParseNodes` | core/src/xml.c:295-398 | the node loop never passes the end of the text |
| `XmlEntities.UnescapeInvertsWriting` | core/src/xml.c:99-129 | one pass gives back what was meant, whichever characters were escaped, with plain ampersands wherever they start no entity |
| `XmlEntities.UnescapeInvertsEscape` | core/src/xml.c:99-129 | escaping all five characters and unescaping once is the identity on every text |
| `XmlRoundTrip.ContentOver` | core/src/xml.c:295-398 | the nodes of any rendered content come first, then whatever stands behind it |
| `XmlRoundTrip.PrologIsInstruction` | core/src/xml.c:416-420 | skipping an XML declaration is the same as reading it as a processing instruction, for every text |
| `XmlRoundTrip.DocumentRoundTrip` | core/src/xml.c:402-428 | any rendering (blanks, quotes, escapes, closing form, instructions, any closing name) is read back as its tree with attribute lists reversed |
| `XmlWriter.WriteThenParse` | core/src/xml.c:402-428 | every tree with valid names, NUL-free values and non-adjacent text nodes starting with a non-space is read back with each attribute list reversed |
| `XmlWriter.LookupFindsLast` | core/src/xml.c:534-544 | on a tree that was read back, a look-up finds the last attribute that was written with the name |
| `XmlLanguage.ParseDocumentIff` | core/src/xml.c:402-428 | the exact language and result, for every text: it is accepted with a tree if and only if it starts with written content with that meaning, up to the end of the text, to a closing tag, or to elements that stay open |
| `XmlLanguage.ExplainNodes` | core/src/xml.c:295-398 | whatever the node loop accepts has a concrete syntax tree whose text stands there and whose meaning is the result |
| `XmlLanguage.RunOver` | core/src/xml.c:295-398 | every such text is read as its meaning, to its end |
| `XmlLanguage.ClosingTagEndsDocument` | core/src/xml.c:299-306 | what follows a closing tag outside any element makes no difference |
| `XmlLanguage.OpenElementIsClosed` | core/src/xml.c:295-307 | an element without closing tag at the end of the text gives the same document as with one |
| `CStrings.FindIff` | core/src/xml.c:312-346 | the search finds a place if and only if it is the first match before the terminator |
| `CStrings.FindSubstring` | core/src/stringex.c:510-534 | the search loop of strstr |
| `Dictionary.RunKeepsLast` | core/src/dictionary.c:120-205 | after any sequence of sets a key is there if and only if some accepted set named it, with the value of the last one |
| `Dictionary.Dictionary.Search` | core/src/dictionary.c:127-161 | the nested walks along buckets and entries find an entry exactly when the key is in the map |
| `Dictionary.Dictionary.SetValue` | core/src/dictionary.c:120-166 | refuses empty keys and values; otherwise the map is updated at the key, in place or with a new bucket |
| `Dictionary.Dictionary.SetReference` | core/src/dictionary.c:168-205 | refuses empty keys and NULL; otherwise the map holds the pointer at the key |
| `Dictionary.Dictionary.GetValue` | core/src/dictionary.c:207-234 | the value in the map, or nothing |
| `Dictionary.Dictionary.AddHashBucket` | core/src/dictionary.c:293-318 | walks to the last bucket and links a new empty one behind it; the counter grows |
| `Dictionary.Dictionary.AddEntry` | core/src/dictionary.c:320-398 | the first bucket with the hash is found and the entry linked behind its last one; its count grows by one, all else stays |
| `Dictionary.Dictionary.Insert` | core/src/dictionary.c:293-359 | a new key keeps: unique keys, every entry in the first bucket with its hash, as many buckets as keys as counted entries |
| `Dictionary.Dictionary.Overwrite` | core/src/dictionary.c:127-161 | a new value for an old key keeps all of that and the place of every entry |
| `Dictionary.InsertKeepsHashes` | core/src/dictionary.c:320-359 | for any hash function, every entry still sits in the first bucket with its hash |
| `Dictionary.InsertKeepsCounts` | core/src/dictionary.c:293-398 | bucket count, entry count and the sum of the per-bucket counts stay equal |
| `Dictionary.Dictionary.GetAllKeys` | core/src/dictionary.c:236-273 | an array with each key once in bucket order, then the terminator |
| `Dictionary.InsertAddsKey` | core/src/dictionary.c:293-398 | for any hash function, a new key is listed behind the last key with its hash, or at the end when there is none |
| `KeyOrder.RunIsGrouped` | core/src/dictionary.c:236-273 | however keys come, each is listed once, and keys with one hash together |
| `KeyOrder.OrderIsKept` | core/src/dictionary.c:236-273 | keys that are set in the order of a listing are listed in that order |
| `HashBuckets.AppendBucket` | core/src/dictionary.c:304-315 | the walk to the last bucket and the link of a new one; the buckets and entries that are there stay |
| `HashBuckets.AppendEntry` | core/src/dictionary.c:344-353 | the walk to the last entry and the link of a new one, in one bucket; the other buckets keep their entries |
| `Links.AppendLast` | core/src/dictionary.c:344-353 | walking to the end of a chain and linking there appends to the values of the chain |
| `Links.ChainWithout` | comm/src/mqtt.c:271-289 | bridging a link takes exactly its value out of the chain |
| `Abnf.TrimView` | comm/src/abnf.c:68-80 | moves both ends of a view to the trimmed text |
| `Abnf.NextToken` | comm/src/abnf.c:132-134 | strtok with a space: skips spaces, takes a token, consumes one delimiter |
| `Abnf.Abnf.ParseStartLine` | comm/src/abnf.c:113-171 | two tokens and the rest of the line; a status line is recognised by its version; protocol set |
| `Abnf.Abnf.ParseHeaderLine` | comm/src/abnf.c:201-236 | a line with a colon and a key goes into the dictionary, trimmed; other lines are passed over |
| `Abnf.Abnf.ParseHeadersBlock` | comm/src/abnf.c:173-242 | the cursor loop stores exactly the header map of the specification |
| `Abnf.ParseMessage` | comm/src/abnf.c:244-343 | null exactly when the specification refuses the text; otherwise a valid object with its start line, headers and body, which lists its headers in the specified order |
| `Abnf.Abnf.Serialize` | comm/src/abnf.c:419-536 | the start line for the usage, every header once in dictionary order, the blank line and the body as a C string |
| `AbnfRoundTrip.ParsedIsWellFormed` | comm/src/abnf.c:244-343 | whatever parses has tokens without spaces, trimmed colon-free keys, trimmed values and no line break in any of them |
| `AbnfRoundTrip.StartRoundTrip` | comm/src/abnf.c:113-171 | a serialized start line is split into the same three parts and taken for the same kind |
| `AbnfRoundTrip.HeadersOver` | comm/src/abnf.c:173-242 | written header lines are read back one by one, and the loop stops at their end |
| `AbnfRoundTrip.SerializeThenParse` | comm/src/abnf.c:419-536 | for every well-formed message, header order and HTTP or SIP: parsing the serialized text gives the message back if and only if it has a header or no body |
| `AbnfRoundTrip.NormalForm` | comm/src/abnf.c:244-343 | so for every NUL-free text that parses, serializing and parsing again keeps the message, under exactly that condition |
| `AbnfOrder.TextIsFixed` | comm/src/abnf.c:419-536 | for every NUL-free text that parses and any hash function: serializing, parsing and serializing again gives the same text if and only if there is a header or no body |
| `AbnfOrder.WrittenOrder` | comm/src/abnf.c:490-517 | headers written in the order in which a dictionary lists them are listed in that order when they are read back |
| `AbnfRoundTrip.BodyWithoutHeadersIsLost` | comm/src/abnf.c:299-339 | a concrete message with a body and no header that does not come back |
| `MqttPacket.EncodeRemainingLength` | comm/src/mqtt.c:71-85 | the do-while loop writes the variable-length form of the number |
| `MqttPacket.DecodeRemainingLength` | comm/src/mqtt.c:640-647 | the do-while loop with sum and multiplier reads it, and stops at the end of the data |
| `MqttPacket.DecodeInvertsEncode` | comm/src/mqtt.c:640-647 | decoding gives back every encoded number and the place behind it, whatever follows |
| `MqttPacket.EncodingsAreSelfDelimiting` | comm/src/mqtt.c:71-85 | no encoding is the beginning of another |
| `MqttPacket.FourBytes` | comm/src/mqtt.c:71-85 | at most four bytes if and only if the number is below 268435456 |
| `MqttPacket.BuildPublishPacket` | comm/src/mqtt.c:163-197 | fixed header, length, topic with a 16-bit length, identifier at QoS 1 only, payload |
| `MqttPacket.PublishRoundTrip` | comm/src/mqtt.c:163-197 | for every QoS argument a built packet is taken apart into its topic (cut to 16 bits of length), identifier and payload if and only if qos mod 128 is below 32 and qos is 1 or not 1 mod 4 |
| `MqttPacket.HeaderBits` | comm/src/mqtt.c:184-186 | all eight bits of the header byte for every QoS argument: never retained, QoS, duplicate flag and packet type |
| `MqttPacket.TopicComesBackIff` | comm/src/mqtt.c:169-173 | the topic itself comes back if and only if besides it is shorter than 65536 bytes |
| `Mqtt.NextIdOfRun` | comm/src/mqtt.c:508-513 | over every run of publishes, failed sends, PUBACKs and retries the n-th identifier is 1 + (n mod 65535), never 0 |
| `Mqtt.SourcesOfRun` | comm/src/mqtt.c:508-558 | in every run each pending entry carries the identifier of its own publish, newest first |
| `Mqtt.SameIdIff` | comm/src/mqtt.c:508-513 | two publishes share an identifier if and only if their numbers differ by a multiple of 65535 |
| `Mqtt.PendingIdsAreDistinct` | comm/src/mqtt.c:508-558 | while the pending publishes span fewer than 65535 issues their identifiers are distinct |
| `Mqtt.PubackRemovesExactly` | comm/src/mqtt.c:734-753 | then a PUBACK removes exactly the publish that it names |
| `Mqtt.UnknownPuback` | comm/src/mqtt.c:737-753 | an identifier that is not pending changes nothing |
| `Mqtt.NothingIsLost` | comm/src/mqtt.c:523-558 | every QoS 1 publish that was sent stays pending with its topic and payload until a PUBACK with its identifier comes |
| `Mqtt.OnlyAcknowledgementsShorten` | comm/src/mqtt.c:762-778 | in a run without acknowledgements the list holds every QoS 1 publish that went out |
| `Mqtt.RetryChangesOnlyTimes` | comm/src/mqtt.c:762-778 | retry sets the time of entries at least five seconds old and changes nothing else |
| `Mqtt.Client.Publish` | comm/src/mqtt.c:504-561 | one step of the run: identifier, packet, pending entry when sent; nothing when not connected |
| `Mqtt.Client.HandlePuback` | comm/src/mqtt.c:726-755 | one step of the run: the walk finds the first link with the identifier and bridges it; short packets are dropped |
| `Mqtt.Client.RetryPending` | comm/src/mqtt.c:762-778 | one step of the run along the links, and the packets that go out are those of the entries that were due, in list order |
| `Mqtt.Client.HandlePublish` | comm/src/mqtt.c:638-725 | which acknowledgement goes out and which callbacks are made, for every complete packet |
| `Mqtt.AckCarriesTheId` | comm/src/mqtt.c:689-695 | the acknowledgement of a published packet is a complete PUBACK with the identifier that the publisher used |
| `Mqtt.Client.AddSubscription` | comm/src/mqtt.c:239-264 | links the newest subscription in front |
| `Mqtt.Client.RemoveSubscription` | comm/src/mqtt.c:266-290 | bridges the first link with the topic |
| `Mqtt.UnsubscribeUndoesSubscribe` | comm/src/mqtt.c:239-290 | unsubscribing takes back the last subscription and nothing else |
| `Mqtt.DeliveriesIff` | comm/src/mqtt.c:708-722 | a callback is made if and only if it is subscribed to exactly this topic |
| `Base64.EncodeBytes` | core/src/base64.c:47-97 | the index loop and the padding loop write exactly the encoding and a NUL |
| `Base64.DecodingTable` | core/src/base64.c:102-118 | the table holds the value of every letter and 0 for everything else |
| `Base64.DecodeText` | core/src/base64.c:100-157 | the decoding loop yields exactly the decoded bytes, and fails for lengths that are no multiple of four |
| `Base64.TripleOfQuad` | core/src/base64.c:76-89 | three bytes go through four letters unchanged |
| `Base64.QuadOfTriple` | core/src/base64.c:139-154 | four letters go through three bytes unchanged |
| `Base64.DecodeInvertsEncode` | core/src/base64.c:100-157 | decode(encode(x)) = x for every byte string |
| `Base64.EncodingIsCanonical` | core/src/base64.c:76-94 | every encoding uses the alphabet only, pads at the end only and leaves unused bits zero |
| `Base64.EncodeInvertsDecodeIff` | core/src/base64.c:100-157 | encode(decode(s)) = s if and only if s is canonical |
| `Smtp.PrepareMessageBody` | comm/src/smtp.c:96-166 | the loop with its line-start flag writes exactly the prepared body within three times the length and eight |
| `Smtp.PreparedShape` | comm/src/smtp.c:96-166 | for every message: CR and LF only as CRLF, ends in CRLF, length at most 2n+2 |
| `Smtp.OnlyPairsIff` | comm/src/smtp.c:116-155 | what "only as pairs" means, position by position |
| `Smtp.UnstuffInvertsPrepare` | comm/src/smtp.c:96-166 | removing one leading dot per line recovers the text with normalised line ends |
| `Smtp.TextComesBackIff` | comm/src/smtp.c:96-166 | the text itself comes back if and only if its line ends were normal already |
| `Smtp.FirstEndIsAppended` | comm/src/smtp.c:658-663 | the first CRLF.CRLF on the wire is the appended one if and only if the header holds none |
| `Smtp.MessageEndsAtItsEnd` | comm/src/smtp.c:658-663 | for all header fields: the first CRLF.CRLF on the wire is the appended one if and only if no field followed by CRLF contains one |
| `Smtp.EndInHeader` | comm/src/smtp.c:658-663 | the header holds an end mark if and only if one of its fields, followed by CRLF, does |
| `Smtp.PlainFieldHasNoEnd` | comm/src/smtp.c:658-663 | a field without carriage returns holds none |
| `Smtp.SubjectCanEndTheMessage` | comm/src/smtp.c:658-663 | a concrete subject after which the receiver takes the message to end within the header |
| `StringEx.IndexOfSubstr` | core/src/stringex.c:510-534 | the first place of a substring in the array, or -1; 0 for an empty substring |
| `StringEx.StringEx.RemoveSubstrAll` | core/src/stringex.c:698-715 | on every input on which the loop ends: it shifts the array in place until no occurrence is left, and the pattern was not empty |
| `StringEx.RemoveAt` | core/src/stringex.c:707-708 | one turn of the removal: the tail moves down over the occurrence |
| `StringRewrite.RemovalEndsIff` | core/src/stringex.c:698-715 | the removal loop ends if and only if the pattern is not empty, whatever the string |
| `StringRewrite.RemoveAllIsLimit` | core/src/stringex.c:698-715 | the result is reached after finitely many turns and stays |
| `StringRewrite.RemoveAllLeavesNone` | core/src/stringex.c:698-715 | for every non-empty pattern the rescanning removal ends and leaves no occurrence, also none that forms where parts meet |
| `StringEx.StringEx.ReplaceSubstrAll` | core/src/stringex.c:926-1018 | on every input on which the loop ends: no occurrence is left and the contents are the limit of the replacements |
| `StringEx.ShiftTail` | core/src/stringex.c:972-993 | moves the tail of the array to either side without overwriting what is still to be moved |
| `StringEx.StringEx.ReplaceAt` | core/src/stringex.c:953-1008 | one replacement in place |
| `StringRewrite.ShorterConverges` | core/src/stringex.c:953-1015 | the loop ends when the new text is shorter than the old one |
| `StringRewrite.DisjointIsSinglePass` | core/src/stringex.c:953-1015 | when the new text is not empty and shares no character with the old one the loop ends, with the result of one pass from left to right |
| `StringRewrite.NotLongerConvergesIff` | core/src/stringex.c:953-1015 | when the new text is no longer than the old one, the loop ends if and only if they differ or the old text does not occur in the string |
| `StringRewrite.SameLengthConverges` | core/src/stringex.c:953-1015 | texts of equal length: a weight of the string moves in one direction only |
| `StringRewrite.AbsentFromReplacementIsNotEnough` | core/src/stringex.c:953-1015 | a concrete input with the old text nowhere in the new one on which the loop never ends |
| `StringRewrite.ConvergesIffAbsent` | core/src/stringex.c:1012-1014 | when the old text occurs in the new one the loop ends if and only if the old text does not occur in the string |
| `StringRewrite.IndependentIsSinglePass` | core/src/stringex.c:953-1015 | when neither text contains or overlaps the other at an end, the loop ends with the result of one pass from left to right |
| `StringRewrite.ResultIsUnique` | core/src/stringex.c:953-1015 | the result does not depend on how the turns are counted |
| `Buffer.Buffer.AdjustStorage` | core/src/buffer.c:359-399 | doubles the capacity as far as needed, copies the data, keeps spare bytes zero, and leaves the buffer alone where doubling would overflow |
| `Buffer.GrownBounds` | core/src/buffer.c:378-386 | growth ends, is by doubling, goes no further than needed, and succeeds whenever half the address space suffices |
| `Buffer.Buffer.Append` | core/src/buffer.c:155-181 | appends the bytes, or reports failure and changes nothing, exactly when there are no bytes or no capacity |
| `Buffer.Buffer.Remove` | core/src/buffer.c:183-205 | takes a range out; a range that does not lie in the data is left alone; freed bytes are zero |
| `Buffer.Buffer.RemoveEnd` | core/src/buffer.c:207-220 | cuts off the end, or nothing |
| `Buffer.Buffer.RemoveStart` | core/src/buffer.c:222-225 | cuts off the beginning, or nothing |
| `Buffer.Buffer.Clear` | core/src/buffer.c:240-253 | no contents, all bytes zero, same capacity |
| `Buffer.Buffer.CopyFrom` | core/src/buffer.c:129-153 | contents and capacity of another buffer in new memory |
| `Buffer.Buffer.WithData` | core/src/buffer.c:80-101 | the data in a page or in as much as they need |
| `Buffer.Buffer.WithLength` | core/src/buffer.c:116-127 | an empty buffer with the capacity asked for, at least 1 |
| `Buffer.CopiesAreAmortized` | core/src/buffer.c:155-181 | over any run of appends growth copies in total fewer bytes than twice the final size |
| `Json.ParseMember` | core/src/json.c:398-427 | one member: the key, the colon, the value with the key set on it; an unreadable key fails at the colon |
| `Json.UnescapeOne` | core/src/json.c:162-232 | one turn of the loop: what it reads and what it writes |
| `Nodes.Node.LastChild` | core/src/json.c:125-127 | the walk along the siblings ends at the last child |
| `Nodes.Node.constructor` | core/src/json.c:96-110 | a node without links, siblings or parent |
| `Xml.ParseOne` | core/src/xml.c:305-396 | one construct: comment, CDATA, instruction, element or text; a node or nothing |
| `Xml.ParseAttribute` | core/src/xml.c:232-246 | name, equals sign and quoted value of one attribute |
| `Dictionary.InsertKeepsLists` | core/src/dictionary.c:320-359 | after an insertion every entry is still the only one of its key and every key has an entry |
| `Dictionary.OverwriteKeepsLists` | core/src/dictionary.c:127-161 | so it is after overwriting a value |
| `Abnf.Abnf.ParseRest` | comm/src/abnf.c:299-339 | headers and body behind the start line, with and without a blank line |
| `Abnf.Abnf.SerializeStart` | comm/src/abnf.c:436-491 | the start line of each usage, or nothing when the fields that it needs are missing |
| `Abnf.Abnf.SerializeHeaders` | comm/src/abnf.c:490-517 | the loop over the keys writes each header once |
| `AbnfRoundTrip.WithoutHeaders` | comm/src/abnf.c:299-339 | without headers the message comes back if and only if it has no body |
| `Base64.PaddingOverLetters` | core/src/base64.c:91-94 | overwriting the last letters gives the padded encoding |
| `Smtp.NoEndBefore` | comm/src/smtp.c:658-663 | within header and body an end mark stands only where the header has one |
| `StringEx.CopyTail` | core/src/stringex.c:707-708 | the overlapping copy moves the tail with its terminator and makes the string shorter |
| `StringEx.ReplaceIn` | core/src/stringex.c:953-1008 | one turn of the replacement: room, shift, copy and NUL |
| `StringEx.Splice` | core/src/stringex.c:971-1001 | shift and copy together replace a range of the array |
| `StringRewrite.GrowingNeverEnds` | core/src/stringex.c:1012-1014 | once a text that contains the old one has been put in, no number of turns ends the loop |
| `Buffer.Buffer.Default` | core/src/buffer.c:103-114 | an empty buffer of one page, all bytes zero |
| `ListDoubleLinked.ReadIntBytes` | core/src/listdoublelinked.c:694-695 | the comparator reads back every int of 32 bits from its four bytes, two's complement, low byte first |
| `ListDoubleLinked.BytesOfReadInt` | core/src/listdoublelinked.c:694-695 | every four bytes hold exactly one int of that range |
| `ListDoubleLinked.ComparesAsInts` | core/src/listdoublelinked.c:694-699 | the sign of the comparator on two ints in memory is their signed order, for all pairs |
| `ListDoubleLinked.IntListComesOutAscending` | core/src/listdoublelinked.c:566-700 | a list of any signed ints comes out as the same ints in ascending order, negative ones first |
| `CrcOrder.OnesComeBackIff` | comm/src/modbus.c:37-47 | the register of sixteen ones comes back after exactly the multiples of 32767 steps, since it is x^210 (x + 1) |
| `Modbus.StartIsOnes` | comm/src/modbus.c:37 | the checksum starts with sixteen ones |
| `Modbus.ZerosAreRefused` | comm/src/modbus.c:288-302 | zero bytes alone are refused, however many |
| `Modbus.ZerosInFrontIff` | comm/src/modbus.c:288-302 | n zero bytes in front of an accepted frame are accepted with it if and only if n is a multiple of 32767 |
| `Modbus.TcpHeaderReadsBack` | comm/src/modbus.c:215-234 | transaction, protocol 0, length, unit, function and data of a built frame, each where a reader looks for it |
| `Modbus.TcpTakesAnnounced` | comm/src/modbus.c:274-287 | for every header: the receiver takes as many bytes as the header announces, leaves what follows, and refuses everything shorter and an announced length of zero |
| `JsonEscapes.UnescapeInvertsEscape` | core/src/json.c:154-236 | escaping any text as section 7 of RFC 8259 asks gives a literal, and unescaping it gives the text back |
| `JsonEscapes.SequenceIff` | core/src/json.c:198-214 | the bytes are read back as a number if and only if they are those written for it; the ones that are no UTF-8 are those from ED A0 on |
| `JsonEscapes.HexFourInverts` | core/src/json.c:184-196 | four hex digits, each in either case, read back as the number that was written with them |
| `JsonEscapes.EveryLiteralIsWritten` | core/src/json.c:154-236 | every literal is a sequence of characters and escapes of known meaning, a backslash that escapes nothing included, so that the unescaping of all of them is known |
| `JsonSpelling.AcceptedIff` | core/src/json.c:550-588 | a NUL-free text is accepted with a tree if and only if it spells that tree, where the meaning of every escape is written down apart from the parser |
| `AbnfLines.StartLineIff` | comm/src/abnf.c:113-171 | a line is accepted with three fields if and only if it is two words and a rest with spaces between and before them; it is a status line if and only if it begins with "HTTP/" or "SIP/" |
| `AbnfLines.ProtocolIff` | comm/src/abnf.c:93-111 | the protocol of a version: HTTP, SIP or unknown, if and only if it begins so |
| `AbnfLines.MessageStart` | comm/src/abnf.c:244-343 | the start line and the protocol of a whole message, whatever follows its first line |
| `AbnfLines.StatusLineIsRead` | comm/src/abnf.c:141-154 | for every version number, status code and reason: a response of either protocol is read as its three parts |
| `AbnfLines.HeaderLineIsRead` | comm/src/abnf.c:201-236 | a header line with any white space around key and value is stored without it |
| `AbnfLines.HeaderLineIsPassedOver` | comm/src/abnf.c:201-214 | a line without a colon, or with white space only in front of it, changes nothing |
| `AbnfLines.CommandLine` | comm/src/abnf.c:461-487 | SMTP and IMAP commands: the line, its words, and that no such line is read back |
| `AbnfLines.ReplyLine` | comm/src/abnf.c:461-487 | SMTP and IMAP replies: the line, and that it is read back as a request exactly when its text has a space inside |
| `XmlEntities.UnescapeIsIdentityIff` | core/src/xml.c:99-129 | a text is left as it is if and only if none of the five entities stands anywhere in it |
| `XmlEntities.EveryTextIsWritten` | core/src/xml.c:99-129 | every text is a sequence of characters and entities, plain ampersands included, so that the unescaping of all of them is known |
| `SmtpLines.PreparedLines` | comm/src/smtp.c:96-166 | for lines ended in any of three ways: the prepared body is the same lines with one more dot where one starts with a dot, each with CRLF, and the receiver gets them without the dots |
| `SmtpLines.EveryTextHasLines` | comm/src/smtp.c:96-166 | every text is made of such lines |
| `SmtpLines.MailReadsBack` | comm/src/smtp.c:658-663 | a reader of header lines finds the six fields of a mail with their values, and behind them the prepared body and its end |
| `Mqtt.TimesOfRun` | comm/src/mqtt.c:538-558 | in every run the time of a pending entry is when its publish last went out: when it was sent, or at the last retry that came at least five seconds later |
| `Mqtt.DuePacketsParse` | comm/src/mqtt.c:762-778 | the packets of a retry are read back as the topics, identifiers and payloads of the entries that have waited for five seconds, in their order |
| `Mqtt.ExchangeCompletes` | comm/src/mqtt.c:726-755 | the acknowledgement that a receiver makes for a pending publish takes out that publish and nothing else |
| `Mqtt.UpToNulIs` | comm/src/mqtt.c:667-710 | the topic for the callbacks is what stands before the first zero byte |
| `Base64.EncodingIsSextets` | core/src/base64.c:47-97 | every character of an encoding: the letter of table 1 of RFC 4648 for its six bits of the data, or = where the data have ended |
| `Buffer.GrownIff` | core/src/buffer.c:378-386 | the new capacity is the first doubling with room; growth fails if and only if 64 bits cannot count it |
| `Abnf.StoredIsCString` | comm/src/abnf.c:217-231 | keys and values are stored so that a reader of a char* sees them |

## Left out

- Mqtt.Client.Publish: asks for a packet body below 268435456 bytes, because the code builds the fixed header in an array of five bytes; what happens above that is not modelled.
- MqttPacket.BuildPublishPacket: asks for the same bound, for the same reason.
- MqttPacket.DecodeRemainingLength: the sum and the multiplier are unbounded, so the wrap-around of `size_t` behind nine continuation bytes is not modelled; nor is it in MqttPacket.DecodeLength.
- Mqtt.Client.HandlePublish: takes a complete packet; the event loop reads two bytes first, and how the rest arrives is not modelled. The code reads the header byte (comm/src/mqtt.c:678) after it has freed the buffer that holds it (comm/src/mqtt.c:649); the model reads it as it was received.
- Mqtt.Client.HandlePuback: takes a complete packet too.
- Modbus.CheckRtu: takes the frame that was received; the code passes a length of 256 whatever was read.
- StringEx.StringEx.ReplaceSubstrAll: asks for an input on which the loop ends, since on all others the code does not return.
- StringEx.StringEx.RemoveSubstrAll: asks for an input on which the loop ends, which StringRewrite.RemovalEndsIff shows to be every non-empty pattern.
- StringRewrite.ConvergesIffAbsent: for longer new texts that overlap the old one without containing it, only sufficient conditions and a diverging input are given; termination of a single rewriting rule on strings has no known decidable condition.
- StringEx.CopyTail: the code moves the tail by strcpy within one array (core/src/stringex.c:707), which C leaves undefined; the model copies from the front on.
- StringEx.AdjustStorage: gives room for the new contents; page rounding and shrinking are not modelled.
- Base64.EncodeBytes: asks for an encoded length below 2^32, the range of the loop counters.
- Base64.DecodeText: asks for an input below 2^32 characters, for the same reason.
- List.List.Join: asks for two different lists; a list joined with itself is tied into a cycle and then freed.
- Abnf.Abnf.SerializeHeaders: takes the last character of a stored key or value for its NUL, which is what a C string gives as long as none stands inside; the parser stores no other.
- Xml.ParseElement: an element is linked to its parent behind its content, not before it; the tree is the same, and a tree whose content fails is thrown away either way.
- Dictionary.Dictionary.constructor: takes the hash function as a parameter; the library's own mixing function is not modelled, and nothing depends on it.
- Mqtt.Client.RetryPending: time is a number of seconds.
- Xml.AddAttribute: the attribute list is a sequence in list order, not a chain of nodes.
- Aliasing of arguments: appending a buffer to itself, or replacing within a string by parts of itself.
- Insert, remove and lookup on the singly linked list: the same refinements as on the doubly linked one.
- Failed allocations, freeing, and the loaders that read files.
- The list cursors behind get_first and get_next.
- Sockets, TLS, DNS, serial ports and everything that only passes bytes on; sends answer with a parameter.
- The SMTP dialogue, login and date; CONNECT, SUBSCRIBE and UNSUBSCRIBE packets; Modbus reads and register writes.
- The printers for JSON and XML nodes, which do not escape.
- The other string functions, the variant, key-value, queue and stack types, and the message getters and setters: short and easy.
