# Verified models of the ICS servers

The repository holds two servers that exchange framed binary messages (a center, and a proxy that weighing terminals
connect to) and TinyXML, which reads and writes their configuration. This project models the parts of both that
carry the most logic and proves what they are for. `dafny verify dfyconfig.toml` checks everything.

**XML.** `XmlBytes`, `XmlScanner`, `XmlParser` and `XmlReader` are the recursive parser over a NUL-terminated buffer,
as functions (whose termination is the reader's) and as the loops that run, proved equal. `XmlEncoder`, `XmlHexRefs`
and `XmlPrinter` are the printer, `XmlLayout` what the printed bytes are and where they stand, `XmlRoundTrip` the
theorem that parsing undoes printing, `XmlExactness` for which documents it does. `XmlMarkup` (characters and text),
`XmlGrammar` (nodes) and `XmlDocuments` are a grammar of what is read, beside the reader: what is read is markup, and
with `XmlGrammarReads` markup is read as what it means; `XmlErrors` is when reading fails and how that is reported.
`XmlNewlines` is the newline pass of `LoadFile`, `XmlCursor` the row and column tracking, `XmlUtf8` and
`XmlReferences` the UTF-8 encoder and numeric references. `XmlDom` and `XmlDomEdit` are the linked nodes and their
edits, `XmlDomRuns` runs of edits, `XmlClone` what copying keeps, `XmlAttributeSet` and `XmlAttributeRing` the
attribute list as a map and as a ring. `TinyString` is the string class used without the standard one.

**ICS.** `IcsWire` is the wire format, `IcsStream` the stream over a chunk of memory, `IcsRelay` the handlers that
relay a command from the web client through center and proxy to a terminal, with the answer and the way back up,
`IcsTransparency` what arrives end to end, and `IcsJourney` the handlers run one after another, proved to compute that.
`IcsReceive` is the buffer that messages are received in, piece by piece (`handleData`,
`src/module/icsconnection.hpp:235-273`). `IcsRegistry` is the proxy's registry of terminals as a state machine and
`IcsServer` the server as objects that refine it. `IcsPool` is the ownership of pooled chunks as a state machine and
`IcsMemory` pool, streams and send lists as objects that refine it.

How the code is read:

- A C pointer into a buffer is an index, NULL is -1, and a buffer is the bytes before its NUL. Reading at the terminator
  is allowed, reading beyond it is a precondition that every access is proved to meet.
- The parser is modelled in a single-byte encoding and with assertions off: `StringEqual` answers false at the
  terminator. The character classes are those of the C locale.
- The global switch for condensing white space is a parameter, and so are the printer's indentation and line break.
- Multipliers and sums that can wrap around are written out at their width: 32 and 64 bits for character references, 16
  bits for message lengths, ids and counters, the prefix of a string for its length.
- The checksum is any function from bytes to 32 bits. The lookup of a file path and the loading of a file are arbitrary
  functions, exception texts an arbitrary function of the fault. Byte order is that of the configured build,
  little-endian. Fixed-width values travel as their bytes, whatever they mean.
- The base class of the connections is `src/module/icsconnection.hpp`: a superseded connection is marked and then failed,
  only the first failure of a connection is acted on, and a chunk that was sent goes back to the pool when its
  transmission ends.
- Between two servers a message is taken to arrive as the whole that was sent; what pieces can do to it is `IcsReceive`'s.
- Each handler call of the servers is one atomic step; connections authenticate, fail and are superseded in any order.

Where the code does less than it promises, the exact condition is proved. `&#x` in a text is taken for a reference and
never comes back (`KeptReadExactly`, `TrimmedReadExactly`). A terminal that authenticates with an empty id, or after it
failed, stays in the registry (`FailUndoesAuthenticate`, `LateTerminalStays`). A center is not told who is online when
it connects (`CenterView`, `LateCenterMisses`). With chunks of less than 25 bytes no terminal can stay registered
unless it failed before (`RegistrySafety`). Closing a connection loses the chunks it has not sent
(`LostExactlyByLeaks`). A string with a NUL, or one longer than its prefix counts, is not received as it was sent, and
neither is a message of more than 1024 bytes or one whose length does not fit 16 bits (`FramedRoundTrip`,
`RelayTransparent`, `AckTransparent`, `UplinkTransparent`, `WholeMessage`). Less than 20 bytes, a head and a checksum,
of the next message, received behind a whole one, is not moved to the front of the buffer and is lost, unless it
happens to be there (`SplitIsInvisible`, `CutInHeadIsLost`). Numbers of 5000000000 and more, or beyond 32 bits in
hexadecimal, are not read as written (`DigitsAreRead`). Encoded characters from 0x140000 on are not read back
(`RawCharacterBack`). A byte 0xEF that the cursor comes to in one of the last two places of UTF-8 input is never got
past (`StampEnds`, `CutSequenceHangs`), and a position past the terminator is lost (`TwoStampsAreOne`). LF CR counts as
one row and two lines (`RowsAreNormalizedLines`). Comments and CDATA that hold their end tag do not come back
(`CommentBack`, `CdataBack`). A CDATA section or a declaration that is cut off ends a document without an error
(`DocumentIsMarkup`). A copy loses attributes behind one that lacks name and value, and whatever follows a NUL
(`CloneIsFaithful`).

## Model

| member | source | states |
|---|---|---|
| XmlScanner.SkipWhiteSpace | src/module/tinyxmlparser.cpp:314-361 | Answers NULL at the terminator, otherwise the first position that is not white space, and reads nothing beyond the terminator. |
| XmlScanner.ReadName | src/module/tinyxmlparser.cpp:401-436 | The name is the longest run of name characters after a letter or underscore; otherwise nothing is read and NULL is answered. |
| XmlScanner.StringEqual | src/module/tinyxmlparser.cpp:534-572 | True exactly when the whole tag stands at the position, byte for byte or by lower-cased bytes; a buffer that ends inside the tag does not match. |
| XmlScanner.GetEntity | src/module/tinyxmlparser.cpp:438-531 | A numeric reference yields the low byte of its number and the position after its semicolon, NULL when a byte is no digit or the semicolon is missing; an unknown entity yields nothing and skips the ampersand. |
| XmlScanner.GetChar | src/module/tinyxml.h:327-361 | In a single-byte encoding: an ampersand is read as an entity, every other byte as itself. |
| XmlScanner.ReadText | src/module/tinyxmlparser.cpp:574-637 | Both loops compute the recursive definition of text up to an end tag; the answer is past the tag, and NULL when nothing follows it. |
| XmlScanner.TextAt | src/module/tinyxmlparser.cpp:574-637 | A position other than NULL is inside the buffer, beyond the start by at least the end tag, which stands right before it. |
| XmlParser.AttributeAt | src/module/tinyxmlparser.cpp:1392-1463 | An attribute parser answers NULL or a position strictly after its start and at most the terminator. |
| XmlParser.CommentAt | src/module/tinyxmlparser.cpp:1337-1389 | The same progress for comments, which may also run to the terminator. |
| XmlParser.CdataAt | src/module/tinyxmlparser.cpp:1497-1546 | The same progress for CDATA sections. |
| XmlParser.PlainTextAt | src/module/tinyxmlparser.cpp:1497-1546 | Plain text stops at a `<`, strictly after its start unless it starts on one or on white space that is condensed. |
| XmlParser.UnknownAt | src/module/tinyxmlparser.cpp:1275-1306 | The same progress for unknown tags. |
| XmlParser.DeclarationAt | src/module/tinyxmlparser.cpp:1572-1629 | The same progress for declarations, whose loop takes up an attribute or reads over a word in each turn. |
| XmlParser.NodeAt | src/module/tinyxmlparser.cpp:818-900 | Whatever kind of node is identified at a `<`, its parser answers NULL or a position strictly after it: with the distance to the terminator as one measure the mutual recursion of all node parsers ends on every buffer. |
| XmlParser.ElementAt | src/module/tinyxmlparser.cpp:1043-1176 | The same progress for elements, through attributes, children and end tag. |
| XmlParser.ElementFrom | src/module/tinyxmlparser.cpp:1082-1175 | The same progress for the attribute loop: each attribute it takes moves it strictly forward. |
| XmlParser.ValueAt | src/module/tinyxmlparser.cpp:1179-1248 | Reading children never moves back and ends at an end tag, at NULL or at the terminator. |
| XmlReader.Document.ParseAttribute | src/module/tinyxmlparser.cpp:1392-1463 | The stepwise attribute parser computes AttributeAt, with the error it leaves in the document. |
| XmlReader.Document.ParseComment | src/module/tinyxmlparser.cpp:1337-1389 | As above, for comments. |
| XmlReader.Document.ParseCdata | src/module/tinyxmlparser.cpp:1497-1546 | As above, for CDATA sections. |
| XmlReader.Document.ParsePlainText | src/module/tinyxmlparser.cpp:1497-1546 | As above, for plain text. |
| XmlReader.Document.IsBlank | src/module/tinyxmlparser.cpp:1631-1638 | True exactly when every byte is white space. |
| XmlReader.Document.ParseUnknown | src/module/tinyxmlparser.cpp:1275-1306 | As above, for unknown tags. |
| XmlReader.Document.ParseDeclaration | src/module/tinyxmlparser.cpp:1572-1629 | As above, for declarations. |
| XmlReader.Document.ParseNode | src/module/tinyxmlparser.cpp:818-900 | The kind is tried in the order of Identify, and the parser of that kind runs. |
| XmlReader.Document.ParseElement | src/module/tinyxmlparser.cpp:1043-1176 | The element parser, which calls ReadValue and is called by it, computes ElementAt, whose errors and ends XmlErrors and XmlGrammar state. |
| XmlReader.Document.ParseAttributes | src/module/tinyxmlparser.cpp:1082-1175 | The attribute loop: duplicate names and attributes that do not parse end it with an error. |
| XmlReader.Document.ReadValue | src/module/tinyxmlparser.cpp:1179-1248 | The loop over text and child nodes computes ValueAt, keeping the position before white space when that is kept. |
| XmlReader.Document.Parse | src/module/tinyxmlparser.cpp:704-796 | The document loop adds nodes in order, behind those the document holds already, until something that is no `<`; the empty-document error when there are none. |
| XmlReader.Document.SetError | src/module/tinyxmlparser.cpp:798-815 | The first error of a run is kept. |
| XmlMarkup.MarkupAt | src/module/tinyxmlparser.cpp:438-531 | Whatever is read as one character is markup of one by a grammar of its own (a raw byte, a named reference, a numeric reference, or an ampersand that starts neither), reads as what that means, and ends where that ends. |
| XmlMarkup.ReadsAsMeant | src/module/tinyxmlparser.cpp:438-531 | Conversely every raw byte and reference is read as what it means, whatever follows it. |
| XmlMarkup.AmpersandReads | src/module/tinyxmlparser.cpp:438-531 | Reading a character fails if and only if `&#` with one more byte starts no reference; any other ampersand that starts none yields nothing and is passed over. |
| XmlMarkup.DigitsModulo | src/module/tinyxmlparser.cpp:443-509 | However many digits a reference has and however its multiplier and sum wrap around, the byte it yields is the low byte of the number that the digits spell. |
| XmlMarkup.KeptIsText | src/module/tinyxmlparser.cpp:574-597 | Text that is read up to a stop byte is text markup, meaning what was read. |
| XmlMarkup.TrimmedIsText | src/module/tinyxmlparser.cpp:598-637 | The same with white space condensed: raw white space between other characters becomes one space, references to white space stay. |
| XmlMarkup.KeptReads | src/module/tinyxmlparser.cpp:574-597 | Conversely text markup is read as what it means, up to the stop byte. |
| XmlMarkup.TrimmedReads | src/module/tinyxmlparser.cpp:598-637 | The same with white space condensed. |
| XmlGrammar.NodeIsMarkup | src/module/tinyxmlparser.cpp:818-900 | Every node that is read to its end, from any buffer, is markup by a grammar of elements, attributes (white space around `=`, quoted and bare values), text, comments, CDATA and unknown tags that does not mention the reader: what was read is what the markup means, where it ended is where the markup ends, and no error was added. Only a comment and an unknown tag may end with the buffer. |
| XmlGrammar.AttributeIsMarkup | src/module/tinyxmlparser.cpp:1392-1463 | The same for an attribute, with the white space before it. |
| XmlGrammar.ContentIsMarkup | src/module/tinyxmlparser.cpp:1179-1248 | The same for text and children up to an end tag. |
| XmlGrammarReads.NodeReads | src/module/tinyxmlparser.cpp:818-900 | Conversely all markup without ampersands that start nothing and without declarations is read as what it means, up to its end, whatever stands before and behind it; a CDATA section if anything follows. |
| XmlGrammarReads.AttributeReads | src/module/tinyxmlparser.cpp:1392-1463 | The same for an attribute, whose bare value must be followed by white space, a slash or `>`. |
| XmlGrammarReads.ContentReads | src/module/tinyxmlparser.cpp:1179-1248 | The same for text and children up to an end tag. |
| XmlErrors.ElementReports | src/module/tinyxmlparser.cpp:1043-1176 | On every buffer, from a document without an error: an element is not read to its end if and only if there is an error afterwards. |
| XmlErrors.NodeKeeps | src/module/tinyxmlparser.cpp:798-815 | From any document: an error that was there stays, whatever is read, and an element that is not read to its end leaves one. |
| XmlErrors.ElementEnds | src/module/tinyxmlparser.cpp:1092-1137 | An element that is read to its end ends with `/>`, or with `</`, its own name, white space and `>`, right before the next position, and adds no error. |
| XmlErrors.WrongEndTag | src/module/tinyxmlparser.cpp:1117-1137 | A start tag and content in front of `</` that is not the end tag of that name: NULL, with the error for end tags, and the children that were read. |
| XmlErrors.OtherNameIsReported | src/module/tinyxmlparser.cpp:1117-1137 | For any two different names, a document of a start tag of one and an end tag of the other is reported, with the error for end tags. |
| XmlErrors.BrokenEmptyTag | src/module/tinyxmlparser.cpp:1092-1102 | A slash in a start tag that no `>` follows is the error for empty tags. |
| XmlErrors.RepeatedAttribute | src/module/tinyxmlparser.cpp:1141-1170 | An attribute whose name the element has already is the error for elements, and the element keeps those before it. |
| XmlErrors.NoAttribute | src/module/tinyxmlparser.cpp:1403-1410 | Where an attribute must start and neither a name nor the end of the tag does, that is the error for attributes. |
| XmlErrors.CutStartTag | src/module/tinyxmlparser.cpp:1083-1091 | A start tag that is cut off in white space is the error for attributes. |
| XmlDocuments.DocumentIsMarkup | src/module/tinyxmlparser.cpp:704-796 | A document that is read without an error is markup, every byte of it, and holds what that means: nodes with white space between them, up to something that opens no tag, or up to a CDATA section or declaration that is cut off, which the source does not report. |
| XmlDocuments.DocumentReads | src/module/tinyxmlparser.cpp:704-796 | Conversely such markup is read as what it means without an error, or with that for an empty document when it holds no node. |
| XmlDocuments.ParseAppends | src/module/tinyxmlparser.cpp:704-796 | What is read into a document goes behind the nodes it holds, and is what is read into an empty one. |
| XmlEncoder.EncodeString | src/module/tinyxml.cpp:52-134 | The loop writes the escaped text: five entities, hexadecimal references for control bytes, and references that are already there copied up to their semicolon. |
| XmlEncoder.ReadEncodedChar | src/module/tinyxml.cpp:95-132 | Each escaped byte reads back as itself, never looks like the start of an end tag, and is white space only if it is a space. |
| XmlEncoder.KeptReadUndoesEncode | src/module/tinyxmlparser.cpp:574-597 | Reading without trimming undoes EncodeString before an end tag with more input. |
| XmlEncoder.TrimmedReadUndoesEncode | src/module/tinyxmlparser.cpp:598-637 | Trimming reading gives the text with runs of spaces collapsed and end spaces removed, all other bytes kept. |
| XmlEncoder.CollapseFixpoint | src/module/tinyxmlparser.cpp:598-637 | Collapsing always ends in a space-normal text, and leaves a text alone exactly when it is space-normal. |
| XmlEncoder.HexRefIsNotPreserved | src/module/tinyxml.cpp:63-88 | The text `&#x41;` is written as it is and read as `A`. |
| XmlHexRefs.KeptReadExactly | src/module/tinyxml.cpp:63-88 | Without trimming the text comes back if and only if it holds no `&#x`. |
| XmlHexRefs.TrimmedReadExactly | src/module/tinyxmlparser.cpp:574-637 | With trimming the collapsed text comes back if and only if it holds no `&#x`. |
| XmlHexRefs.AnyReference | src/module/tinyxmlparser.cpp:443-509 | A passed-through reference reads to nothing, beyond the text, or as at most one byte in place of at least four. |
| XmlPrinter.Printer.VisitEnter | src/module/tinyxml.cpp:1766-1800 | Indentation, the start tag with the attributes that a walk sees, `/>` or `>`, and a line break unless the only child is plain text, which switches the one-line mode on. |
| XmlPrinter.Printer.VisitExit | src/module/tinyxml.cpp:1803-1826 | The end tag, indented unless the one-line mode was on, which it switches off; nothing for an element without children. |
| XmlPrinter.Printer.VisitText | src/module/tinyxml.cpp:1829-1854 | In one-line mode only the escaped text; otherwise an indented line of escaped text or CDATA. |
| XmlPrinter.Printer.VisitComment | src/module/tinyxml.cpp:1866-1874 | An indented line holding the comment up to its first NUL. |
| XmlPrinter.Printer.VisitDeclaration | src/module/tinyxml.cpp:1857-1863 | An indented line with the fields that are not empty, unescaped. |
| XmlPrinter.Printer.PrintAttributeList | src/module/tinyxml.cpp:1772-1776 | The attributes in order, up to one after the first that lacks name and value, where Next() ends the loop. |
| XmlPrinter.Printer.PrintOne | src/module/tinyxml.cpp:1210-1233 | One attribute, quoted with apostrophes when its value holds a quotation mark. |
| XmlPrinter.Printer.AcceptElement | src/module/tinyxml.cpp:875-886 | Visiting a whole element appends exactly its printed form and restores depth and mode. |
| XmlPrinter.Printer.AcceptDocument | src/module/tinyxml.cpp:1156-1167 | Visiting a document appends its printed form to the buffer. |
| XmlLayout.CharLayout | src/module/tinyxml.cpp:95-132 | What is written for each byte: the five entities by name, control bytes as `&#x` with two upper-case digits and a semicolon, all others as themselves. |
| XmlLayout.ReferenceLayout | src/module/tinyxml.cpp:63-88 | A text from `&#x` to the first semicolon behind it, or to its last byte, is written as it is. |
| XmlLayout.AttributeLayout | src/module/tinyxml.cpp:1210-1233 | The bytes of a printed attribute, its quotes included. |
| XmlLayout.BodyLayout | src/module/tinyxml.cpp:1766-1886 | The bytes of every kind of printed node: tags, comment, CDATA and declaration marks, and the fields of a declaration. |
| XmlLayout.RepeatAdds | src/module/tinyxml.h:1785-1788 | Indentation n times over is n times as long, adds up over depths, and is the indentation itself for one level. |
| XmlLayout.StandsIndented | src/module/tinyxml.cpp:1766-1800 | In a whole document, every node that has a line of its own stands at the start of it behind exactly as many copies of the indentation as it has elements around it, with a line break right behind it. |
| XmlLayout.EndTagIndented | src/module/tinyxml.cpp:1803-1826 | And the end tag of an element with more than plain text in it stands at the start of a line behind as many as its start tag. |
| XmlRoundTrip.PrintThenParse | src/module/tinyxml.cpp:1766-1886 | For every document of elements, comments, CDATA, unknown tags and declarations that nothing in it makes ambiguous, and every white-space layout, parsing what was printed gives the same nodes and attributes in the same order, with texts space-normalised when white space is condensed, and no error; so the document itself if and only if its texts are space-normal or white space is kept. What is printed is a C string. |
| XmlExactness.ComesBackExactly | src/module/tinyxml.cpp:1766-1886 | Of all documents without `&#x` in values and texts and without markup in unknown tags and declarations, exactly those come back from their printed form whose names are names, attribute names distinct, comments and CDATA without NUL and their end tag, and plain texts inside of elements, apart from each other, more than white space and, when that is condensed, space-normal. |
| XmlExactness.NodeShaped | src/module/tinyxmlparser.cpp:818-900 | Whatever a buffer holds, every node read from it has such names, attributes, comments, CDATA and texts, all the way down. |
| XmlExactness.ValueShaped | src/module/tinyxmlparser.cpp:1179-1248 | Reading children never adds a blank text or one right behind another. |
| XmlRoundTrip.SaveAndLoad | src/module/tinyxmlparser.cpp:704-796 | The same for the printer and the reader as they run. |
| XmlRoundTrip.NodeBack | src/module/tinyxmlparser.cpp:818-900 | A printed node, wherever it stands, is read back, up to where it ends. |
| XmlRoundTrip.ChildrenBack | src/module/tinyxmlparser.cpp:1179-1248 | Printed children are read back in order, whatever white space is between them, up to the end tag. |
| XmlRoundTrip.ElementBack | src/module/tinyxmlparser.cpp:1043-1176 | A printed element is read back with its attributes, children and end tag. |
| XmlRoundTrip.AttributesBack | src/module/tinyxmlparser.cpp:1392-1463 | Printed attributes with distinct names are taken up in order. |
| XmlRoundTrip.CommentBack | src/module/tinyxmlparser.cpp:1337-1389 | A printed comment is identified, and read back if and only if it does not hold its end. |
| XmlRoundTrip.CdataBack | src/module/tinyxmlparser.cpp:1497-1546 | A printed CDATA section is identified, and read back if and only if it does not hold its end. |
| XmlRoundTrip.UnknownBack | src/module/tinyxmlparser.cpp:1275-1306 | A printed unknown tag is identified and read back when nothing makes it another kind. |
| XmlRoundTrip.DeclarationFields | src/module/tinyxmlparser.cpp:1572-1629 | The printed fields of a declaration, present or not, are read back. |
| XmlRoundTrip.NodesNulFree | src/module/tinyxml.cpp:1766-1886 | What is printed of a valid tree holds no NUL, so the reader sees all of it. |
| XmlNewlines.NormalizeInPlace | src/module/tinyxml.cpp:1052-1075 | The two heads in one buffer leave the normalised bytes before the first NUL, ended by a NUL; the write head never passes the read head. |
| XmlNewlines.NormalizeIsTranslation | src/module/tinyxml.cpp:1006-1025 | The result is the translation of section 2.11 of XML 1.0 in two passes: CR LF pairs first, then the CRs that are left. |
| XmlNewlines.NormalizeFixpoint | src/module/tinyxml.cpp:1052-1075 | A text is its own normal form exactly when it holds no CR, so a second pass changes nothing. |
| XmlNewlines.OthersKept | src/module/tinyxml.cpp:1052-1075 | Every byte that is not part of a line end is kept, in order. |
| XmlCursor.ParsingData.Stamp | src/module/tinyxmlparser.cpp:196-311 | For every buffer and position: the loop moves row, column and stamp as defined, or stores nothing because the tab size is below 1, the terminator is met first, or the loop never ends or leaves the buffer. |
| XmlCursor.StampsAreIncremental | src/module/tinyxmlparser.cpp:196-311 | Stamping any run of ever later positions gives what stamping the last one gives, if and only if that is reached or none of them moves the cursor. |
| XmlCursor.TwoStampsAreOne | src/module/tinyxmlparser.cpp:223-227 | Two stamps are one if and only if the later position is reached or the earlier one moves nothing: past the terminator a direct stamp is lost. |
| XmlCursor.StampEnds | src/module/tinyxmlparser.cpp:196-311 | For every text, position and encoding: a stamp never ends if and only if, following line ends and lead bytes, the loop comes before the position to a byte 0xEF in one of the last two places; otherwise it is stored if and only if the position is not beyond where that walk leaves the text. |
| XmlCursor.CleanIsStored | src/module/tinyxmlparser.cpp:196-311 | So every position up to the terminator is stamped when neither of the last two bytes is 0xEF. |
| XmlCursor.CutSequenceHangs | src/module/tinyxmlparser.cpp:262-285 | An input on which stamping never ends in UTF-8, and one where the same byte is harmless because a sequence before it takes it in. |
| XmlCursor.RowsAreLineFeeds | src/module/tinyxmlparser.cpp:228-252 | On text without CR in a single-byte encoding a stamp lands on its position and the row grows by the LFs before it. |
| XmlCursor.RowsAreNormalizedLines | src/module/tinyxmlparser.cpp:228-252 | The rows of any text are at most the lines of the normalised text, and as many if and only if no run of alternating line ends starts with LF and ends with CR. |
| XmlCursor.ColumnsCount | src/module/tinyxmlparser.cpp:254-303 | On a stretch without line ends and tabs the column grows by one for each byte. |
| XmlCursor.TabAndLineEnd | src/module/tinyxmlparser.cpp:228-258 | A tab goes to the first multiple of the tab size behind it, a line end to column 0 of the next row. |
| XmlCursor.CharactersCount | src/module/tinyxmlparser.cpp:260-300 | In UTF-8 the column grows by one for each character, however many bytes it has, except for U+FEFF, U+FFFE and U+FFFF, which take none. |
| XmlUtf8.ConvertUTF32ToUTF8 | src/module/tinyxmlparser.cpp:88-126 | The fall-through switch, with its bit operations, writes the UTF-8 bytes of the number from the right and touches nothing beyond them; from 0x200000 on it writes nothing. |
| XmlUtf8.EncodedIsWellFormed | src/module/tinyxmlparser.cpp:88-126 | The output is well-formed by section 4 of RFC 3629 exactly for scalar values, and then decodes to its input. |
| XmlUtf8.DecodedIsScalar | src/module/tinyxmlparser.cpp:88-126 | Every well-formed sequence is what the encoder writes for the scalar value it decodes to. |
| XmlUtf8.EncodingIsInjective | src/module/tinyxmlparser.cpp:88-126 | Different scalar values are written differently. |
| XmlUtf8.BitsInOrder | src/module/tinyxmlparser.cpp:88-126 | A sequence decodes to the bits that section 3 of RFC 3629 marks in its octets, in their order; three characters are given byte for byte. |
| XmlUtf8.CopySequence | src/module/tinyxml.h:347-355 | The copying branch of GetChar takes the bytes that the table announces, cut at the terminator. |
| XmlUtf8.RawCharacterBack | src/module/tinyxmlparser.cpp:64-85 | From 0x80 on, GetChar takes exactly the bytes of an encoded character if and only if it is below 0x140000, where the table stops knowing lead bytes. |
| XmlReferences.DigitsAreRead | src/module/tinyxmlparser.cpp:445-498 | The right-to-left loop with its 32-bit multiplier gives the number that the digits spell if and only if that is below 5000000000, or below 2 to the 32 for hexadecimal digits. |
| XmlReferences.ReferenceIsNumber | src/module/tinyxmlparser.cpp:445-509 | A whole reference reads as its number, up to its semicolon, under the same condition and no other. |
| XmlReferences.ReferenceReadsAsCharacter | src/module/tinyxmlparser.cpp:499-503 | In UTF-8 a reference to a character from 0x80 on reads as the character itself does. |
| XmlAttributeSet.RunsRefineMap | src/module/tinyxml.cpp:1500-1592 | After any run of setting and removing, the attributes are the map that the edits make, with distinct names. |
| XmlAttributeSet.SetNames | src/module/tinyxml.cpp:780-787 | Overwriting keeps every position, a new name goes to the end. |
| XmlAttributeSet.UnsetIsRemoval | src/module/tinyxml.cpp:437-449 | Removing takes out one name and leaves the value of every other. |
| XmlAttributeRing.AttributeSet.Add | src/module/tinyxml.cpp:1514-1527 | The link is put before the sentinel; next and prev stay mutually inverse cycles. |
| XmlAttributeRing.AttributeSet.Remove | src/module/tinyxml.cpp:1529-1545 | The link is found, taken out of the ring and cleared; a link that is not there changes nothing. |
| XmlAttributeRing.AttributeSet.Find | src/module/tinyxml.cpp:1572-1580 | The first link of that name, or null. |
| XmlAttributeRing.AttributeSet.FindOrCreate | src/module/tinyxml.cpp:1583-1592 | The link of that name; when there is none, a new one at the end. |
| XmlAttributeRing.AttributeSet.SetAttribute | src/module/tinyxml.cpp:780-787 | Refines setting on the sequence, with C strings. |
| XmlAttributeRing.AttributeSet.RemoveAttribute | src/module/tinyxml.cpp:437-449 | Refines removing from the sequence, with C strings. |
| XmlAttributeRing.AttributeSet.Next | src/module/tinyxml.cpp:1170-1177 | The next link, or null before the sentinel and before any link without name and value. |
| XmlAttributeRing.AttributeSet.Previous | src/module/tinyxml.cpp:1190-1197 | The previous link, or null likewise. |
| XmlAttributeRing.AttributeSet.Walk | src/module/tinyxml.cpp:862-866 | First and Next visit the attributes in order up to the first, after the first one, that is taken for the sentinel. |
| XmlAttributeSet.WalkIsComplete | src/module/tinyxml.cpp:1170-1177 | The walk shows every attribute if and only if none after the first lacks both name and value. |
| XmlDom.WalksAgree | src/module/tinyxml.cpp:385-435 | next from the first child visits the children in order and stops, prev from the last visits them in reverse and stops, and every child names its parent. |
| XmlDom.EditKeepsForest | src/module/tinyxml.cpp:186-359 | Every edit is a splice of one list of children: with the right links at the seam, all lists, parents and ancestors are right again for the nodes that are left. |
| XmlDom.ChildrenApart | src/module/tinyxml.cpp:149-160 | No node is under two children of a node, so the recursive destructor meets each node once. |
| XmlDom.TreeStays | src/module/tinyxml.cpp:886-897 | The tree at a node depends only on the contents and lists of children in it. |
| XmlDomEdit.Dom.Delete | src/module/tinyxml.cpp:149-160 | The destructor frees exactly the nodes at and under the node, each once, and uses none after that. |
| XmlDomEdit.Dom.FirstChild | src/module/tinyxml.cpp:361-370 | The first child of that value, or null. |
| XmlDomEdit.Dom.LastChild | src/module/tinyxml.cpp:373-382 | The last child of that value, or null. |
| XmlDomEdit.Dom.LinkEndChild | src/module/tinyxml.cpp:186-211 | A node that hangs nowhere, whether or not its parent is set to this one already, and that is not an ancestor goes to the end of the list, all other lists untouched; a document is deleted instead. |
| XmlDomEdit.Dom.Identify | src/module/tinyxmlparser.cpp:893-898 | The node that is created to be read names its parent, but is in no list of children yet. |
| XmlDomEdit.Dom.InsertEndChild | src/module/tinyxml.cpp:214-227 | A copy goes to the end; a document is refused. |
| XmlDomEdit.Dom.InsertBeforeChild | src/module/tinyxml.cpp:230-260 | A copy goes right before the child, all other lists untouched; a node that is not a child, or a document, is refused. |
| XmlDomEdit.Dom.InsertAfterChild | src/module/tinyxml.cpp:263-293 | A copy goes right after the child, likewise. |
| XmlDomEdit.Dom.ReplaceChild | src/module/tinyxml.cpp:296-332 | A copy takes the place of the child, and exactly the nodes at and under the child are freed. |
| XmlDomEdit.Dom.RemoveChild | src/module/tinyxml.cpp:335-359 | The child leaves the list, exactly the nodes at and under it are freed, all other lists untouched. |
| XmlDomRuns.RunEdits | src/module/tinyxml.cpp:186-359 | After any run of linking new nodes, inserting copies at the end, before and after, replacing and removing: the trees of the children are those that the edits make of the list of trees, next and prev walk exactly these children, each names its parent, and all nodes elsewhere are as they were. |
| XmlDomEdit.Dom.Clone | src/module/tinyxml.cpp:889-897 | The copy consists of fresh nodes only, nothing that was there changes, and its tree is what CopyTo makes of the original tree. |
| XmlClone.CloneIsFaithful | src/module/tinyxml.cpp:853-897 | The copy is structurally equal if and only if every string in the tree is a C string and every element has distinct attribute names and no attribute after its first that lacks both name and value. |
| XmlClone.AttributesCopied | src/module/tinyxml.cpp:860-866 | The same condition for one list of attributes, which passes through a walk and SetAttribute. |
| XmlClone.StringsAreCut | src/module/tinyxml.cpp:853-897 | What a copy holds otherwise: every string up to its first NUL, and every attribute, cut likewise, as long as the names stay distinct and the walk is complete. |
| IcsWire.IntegerBack | src/module/icsprotocol.cpp:231-252 | An integer stored in so many bytes reads back modulo what they can hold. |
| IcsWire.LittleEndianDigits | src/module/icsprotocol.hpp:427-437 | Byte i of an integer on the wire is its digit i to base 256, the lowest first. |
| IcsWire.FromLittleEndianDigits | src/module/icsprotocol.hpp:470-484 | And digit i of what is read is byte i, so that the bytes are the number. |
| IcsWire.WordIsInteger | src/module/icsprotocol.cpp:147-201 | Words in the head have the same order: the low byte first. |
| IcsWire.HeadLayout | src/module/icsprotocol.cpp:147-201 | Which bytes of a head of 16 hold version, flags, acknowledged number and message id, in which bits and in which order, after each way to initialise it. |
| IcsWire.FieldLayout | src/module/icsprotocol.hpp:427-457 | The bytes of every field that is written: integers lowest byte first, a date and time in eight bytes, a string behind its length. |
| IcsWire.PacketLayout | src/module/icsprotocol.cpp:120-140 | The bytes of a serialized message: name, version, length and send number in their places, and behind what was written the checksum of all before it, lowest byte first. |
| IcsWire.VerifyIs | src/module/icsprotocol.cpp:120-140 | A packet verifies if and only if it has 20 bytes at least, starts with ICS# and version 1.1, holds its own length, and ends in the checksum of the rest. |
| IcsWire.FieldBack | src/module/icsprotocol.cpp:320-408 | A field reads back if and only if it is sendable: a string must be NUL-free and short enough for its length prefix. |
| IcsWire.FieldsBack | src/module/icsprotocol.hpp:427-484 | A list of fields reads back in order with nothing left over if and only if all are sendable. |
| IcsWire.HeadBack | src/module/icsprotocol.cpp:147-201 | Whatever the head held, initialising it sets id, response and acknowledgement flags that are read back, and leaves the rest. |
| IcsWire.SerializedVerifies | src/module/icsprotocol.cpp:120-140 | For every checksum function a serialized message verifies if and only if its length fits in 16 bits. |
| IcsWire.FramedRoundTrip | src/module/icsprotocol.cpp:231-416 | Written, framed, verified and read: the message verifies exactly when its length fits 16 bits, and every field comes back with nothing left over exactly when all are sendable. |
| IcsStream.ProtocolStream.OpenWrite | src/module/icsprotocol.cpp:231-251 | Opening for writing lays down a fresh head, and throws when the buffer cannot hold head and checksum. |
| IcsStream.ProtocolStream.OpenRead | src/module/icsprotocol.cpp:231-251 | Opening for reading succeeds exactly on a message that verifies, and puts its checksum out of reach. |
| IcsStream.ProtocolStream.OpenCopy | src/module/icsprotocol.cpp:258-267 | A copy of what a stream has written, in another chunk; it throws exactly when that chunk is too small. |
| IcsStream.ProtocolStream.InitAck | src/module/icsprotocol.cpp:312-317 | Sets id, acknowledgement flag and acknowledged number, and nothing else. |
| IcsStream.ProtocolStream.PutText | src/module/icsprotocol.hpp:442-457 | The C string behind its length, in full or not at all. |
| IcsStream.ProtocolStream.PutDateTime | src/module/icsprotocol.cpp:320-330 | Six values in eight bytes, in full or not at all. |
| IcsStream.ProtocolStream.PutStream | src/module/icsprotocol.cpp:342-351 | What the other stream has not read yet is appended; the other stream does not move. |
| IcsStream.ProtocolStream.Finish | src/module/icsprotocol.cpp:297-304 | serialize: send number, length and checksum as the wire format has them. |
| IcsStream.ProtocolStream.GetText | src/module/icsprotocol.cpp:382-408 | Reads what the wire format says stands there, or throws. |
| IcsStream.ProtocolStream.GetDateTime | src/module/icsprotocol.cpp:372-380 | Likewise for date-times. |
| IcsStream.ProtocolStream.MoveBack | src/module/icsprotocol.cpp:353-360 | Goes back by that much, or throws when that would be before the start. |
| IcsStream.ProtocolStream.AssertEmpty | src/module/icsprotocol.cpp:410-416 | Throws exactly when something is left to read. |
| IcsStream.ProtocolStream.ToMemoryChunk | src/module/icsprotocol.cpp:279-289 | Hands over what was written; the stream is finished with. |
| IcsStream.ProtocolStream.PutInteger | src/module/icsprotocol.hpp:427-441 | Writes the digits of the number into the chunk, lowest first, and touches no other byte; or throws for lack of room and touches none. |
| IcsStream.ProtocolStream.GetInteger | src/module/icsprotocol.hpp:470-484 | Reads the number whose digits are the bytes that stand there, lowest first, or throws. |
| IcsRelay.CenterDispatch | src/center/icslocalserver.cpp:1090-1151 | The center sends the command without its enterprise, and of an upgrade request with the file path put in; it throws exactly when a field is missing, no path is known or the chunk is too small. |
| IcsRelay.HandleRemoteForward | src/center/icslocalserver.cpp:1001-1036 | A web command goes to the proxy of its enterprise when it names a gateway and that proxy is connected; only one that cannot be read throws. |
| IcsRelay.TerminalDispatch | src/proxy/icsproxyserver.cpp:95-135 | The proxy sends the terminal what follows the ids, and of an upgrade request what follows the path, if the file can be loaded. |
| IcsRelay.HandleForwardToTerminal | src/proxy/icsproxyserver.cpp:742-784 | On every outcome, a throw included, what the terminal was sent: something exactly when the ids of the answer find room, the terminal is connected and its dispatch succeeds. The answer names gateway, message and request, and reports success exactly then. Otherwise its reason is that the terminal cannot be found exactly when it is not connected, and else the text of the one fault that the dispatch has (FaultOf). |
| IcsRelay.HandleForwardResponse | src/center/icslocalserver.cpp:1260-1287 | The center decodes an answer completely or throws. |
| IcsRelay.FaultOf | src/proxy/icsproxyserver.cpp:95-135 | Why the dispatch to a terminal throws: a field is missing, the file cannot be loaded, the chunk is too small for a stream, or it has no room, in this order. |
| IcsRelay.AckLayout | src/proxy/icsproxyserver.cpp:742-784 | The bytes of an answer, and the words it uses for a terminal that is not connected. |
| IcsRelay.UpgradeLayout | src/center/icslocalserver.cpp:1090-1151 | The bytes of an upgrade request from center to proxy. |
| IcsRelay.UplinkLayout | src/proxy/icsproxyserver.cpp:150-159 | The bytes of a wrapped message on its way up. |
| IcsRelay.AckBack | src/proxy/icsproxyserver.cpp:742-784 | The center recovers gateway, message id, request id, result and reason with nothing left over if and only if gateway and reason are C strings of at most 255 bytes. |
| IcsRelay.ForwardToIcsCenter | src/proxy/icsproxyserver.cpp:150-159 | A terminal's message is wrapped with gateway and message id, in full or not at all. |
| IcsRelay.SendToIcsCenter | src/proxy/icsproxyserver.cpp:912-920 | A center is sent a framed copy of what was wrapped, when it and its checksum fit the chunk. |
| IcsRelay.HandleTerminalMessage | src/center/icslocalserver.cpp:1308-1318 | The center hands a message over under the local name of its gateway, if there is one: its head then has the terminal's message id, and what is left to read is the terminal's body; without a local name it is dropped. |
| IcsTransparency.RelayTransparent | src/center/icslocalserver.cpp:1090-1151 | From any packet with the body of a command to the terminal, on the upgrade path and on every other: the terminal held under the gateway id is sent exactly message id and rest if and only if the packet is a request with the id 0x2004, proxy and terminal are connected, the ids and the path can be carried, every message on the way fits its chunk and the receive buffer of 1024 bytes, and the proxy's answer has room for its ids. Each hop is dispatched on the id in its head. |
| IcsTransparency.DeliveredIsReadable | src/proxy/icsproxyserver.cpp:128-135 | What is delivered verifies, has that id, asks for a response and has that body. |
| IcsTransparency.CenterWrites | src/center/icslocalserver.cpp:1090-1151 | What the center sends the proxy, byte for byte, for an upgrade request, whose file id is the second word of its rest, and for every other command. |
| IcsTransparency.TerminalReceives | src/proxy/icsproxyserver.cpp:128-135 | What the terminal is sent, byte for byte: head, version, flag, message id and rest. |
| IcsTransparency.AckTransparent | src/proxy/icsproxyserver.cpp:742-784 | Framed, received under its own message id and decoded, the answer comes back in success, dispatch failure and missing terminal alike, if and only if it fits the chunk and its strings can be carried; it always fits the receive buffer then. |
| IcsTransparency.EveryAnswerIsDecoded | src/proxy/icsproxyserver.cpp:758-783 | For a gateway id that can be carried, every answer the handler gives is accepted and decoded completely. |
| IcsTransparency.UplinkTransparent | src/center/icslocalserver.cpp:1308-1336 | A terminal's message, wrapped, framed, received under its own message id and unwrapped, is handed over with its own id and body under the local name of its gateway id if and only if that id can be carried and has a local name, and the wrapped message fits its chunk and the receive buffer. |
| IcsJourney.RunRelay | src/center/icslocalserver.cpp:1001-1036 | The handlers of both servers, chosen by message id and run on the streams over what they receive, deliver what RelayTransparent speaks of; and an answer that the center decodes says success if and only if the terminal was sent the message, and otherwise tells which of the possible reasons it was. |
| IcsJourney.RunProxy | src/proxy/icsproxyserver.cpp:742-784 | The same for the proxy's part, from its dispatch on the message id on; every answer of it that is accepted reaches the handler for answers and is decoded completely. |
| IcsJourney.RunUplink | src/proxy/icsproxyserver.cpp:150-159 | The handlers of the way back up, run on streams, hand over what UplinkTransparent speaks of. |
| IcsReceive.Receiver.HandleData | src/module/icsprotocol.cpp:186-189 | handleData (src/module/icsconnection.hpp:235-273), which cuts what was received by this length: the loop hands over the messages at the start of what is pending, in order, and leaves what the definition says, stale bytes included. |
| IcsReceive.PiecesDoNotMatter | src/module/icsprotocol.cpp:186-189 | Whatever pieces a stream arrives in, the messages are those of the whole stream, when each piece leaves the buffer clean. |
| IcsReceive.SplitIsInvisible | src/module/icsprotocol.cpp:186-189 | A piece makes no difference, whatever comes next, if and only if the connection ended on it or what is left behind a whole message is nothing, 20 bytes at least, or by chance what stands at the front. |
| IcsReceive.NextMessageStarts | src/module/icsprotocol.cpp:186-189 | Behind a whole message, less than 20 bytes of the next leave the buffer clean if and only if they are none or equal to what the first message left at the front. |
| IcsReceive.NextMessageArrives | src/module/icsprotocol.cpp:186-189 | A message that is cut there, and whose rest comes next, is handed over if and only if its first part is what the first message left at the front. |
| IcsReceive.CutInHeadIsLost | src/module/icsprotocol.cpp:186-189 | Cut behind its send number, a message is never handed over when the one before had another send number and was left as it came. |
| IcsReceive.NameIsKept | src/module/icsprotocol.cpp:120-138 | Up to six bytes are never lost between messages that verify. |
| IcsReceive.WholeMessage | src/module/icsprotocol.cpp:120-138 | A message that verifies is handed over if and only if it has at most 1024 bytes; a longer one ends the connection. |
| IcsReceive.MessagesInOrder | src/module/icsprotocol.cpp:186-189 | Any number of whole messages in one piece are handed over one after another, each in full, and less than 20 bytes behind them are kept. |
| IcsReceive.LengthsAre | src/module/icsprotocol.cpp:120-138 | The lengths that are accepted are those from 20 to 1024. |
| IcsRegistry.RegistrySafety | src/proxy/icsproxyserver.cpp:138-210 | After every run with non-empty ids, whatever the size of the chunks: from 21 bytes on, the entry for an id is exactly the one connection with that id that was not superseded, the last notice about an id says online exactly when it is registered, and with the kind that its connection has; below 25 bytes only connections that had failed before they authenticated are registered, and below 21 none. |
| IcsRegistry.RoomSuffices | src/proxy/icsproxyserver.cpp:172-210 | With chunks of 25 bytes and more every authentication is answered. |
| IcsRegistry.NoRoomForChecksum | src/proxy/icsproxyserver.cpp:172-210 | With chunks of 21 to 24 bytes a run is the run in which every authentication is followed by the failure of its connection. |
| IcsRegistry.NoRoomForAnswer | src/proxy/icsproxyserver.cpp:172-210 | With smaller chunks nothing is ever registered or announced to be online. |
| IcsRegistry.RunKeepsInv | src/proxy/icsproxyserver.cpp:138-210 | Every step of registration, takeover, repeated authentication, failure, and centers coming and going keeps the invariant. |
| IcsRegistry.RunKeepsKinds | src/proxy/icsproxyserver.cpp:138-210 | Over every run, the last online notice about a registered gateway has the kind of its connection, and every offline notice the kind that was online before it. |
| IcsRegistry.FailEvicts | src/proxy/icsproxyserver.cpp:138-147 | An authenticated connection that fails takes its gateway offline exactly when it was neither superseded nor authenticated after failing; otherwise nothing changes at all. |
| IcsRegistry.FailUndoesAuthenticate | src/proxy/icsproxyserver.cpp:138-147 | Failing takes a gateway out of the registry and announces it for every id but the empty one, whose entry stays. |
| IcsRegistry.EntryPersists | src/proxy/icsproxyserver.cpp:833-843 | Over any run of other connections, superseded ones among them, an entry stays until its owner fails or the gateway is taken over; the entry of a connection that had failed before it came stays even when that fails. |
| IcsRegistry.LateTerminalStays | src/proxy/icsproxyserver.cpp:138-147 | Such a run: a terminal that authenticates after it failed is registered, and stays so when it fails once more. |
| IcsRegistry.CenterReceives | src/proxy/icsproxyserver.cpp:912-920 | A center that stays connected is sent every notice, once and in order. |
| IcsRegistry.CenterView | src/proxy/icsproxyserver.cpp:714-739 | A center is not told who is online when it connects: whatever happens from there on, its notices agree with the registry if and only if no gateway that was online then keeps its entry. |
| IcsRegistry.LateCenterMisses | src/proxy/icsproxyserver.cpp:714-739 | Such a run: a terminal that is online before the center connects is unknown to it. |
| IcsRegistry.MentionedUnlessKept | src/proxy/icsproxyserver.cpp:138-169 | Over every run, a registered gateway is announced again if and only if its entry changes. |
| IcsRegistry.SparedIsKept | src/proxy/icsproxyserver.cpp:833-851 | An entry is kept through everything that other connections do. |
| IcsServer.Server.SendToIcsCenters | src/proxy/icsproxyserver.cpp:912-920 | The loop sends the notice to every registered center and to no other. |
| IcsServer.Server.AddTerminalClient | src/proxy/icsproxyserver.cpp:833-843 | Registers the connection and supersedes the one that held the id; the superseded one runs its error() without taking the mutex again. |
| IcsServer.Server.FindTerminalClient | src/proxy/icsproxyserver.cpp:853-865 | Under the invariant, whoever is found has that id and was not superseded. |
| IcsServer.Server.Replaced | src/proxy/icsproxyserver.cpp:833-843 | Marks the connection and fails it, which then touches neither registry nor notices. |
| IcsServer.Server.DoError | src/proxy/icsproxyserver.cpp:138-147 | Only the first failure of a connection is acted on. |
| IcsServer.Server.Error | src/proxy/icsproxyserver.cpp:138-147 | An authenticated, unsuperseded connection leaves the registry, is announced and forgets its id. |
| IcsServer.Server.HandleAuthRequest | src/proxy/icsproxyserver.cpp:172-210 | The first authentication registers and announces, every later one changes nothing; when the chunks of the pool have no room for the answer only the id is set. |
| IcsServer.Server.HandleAuthMessage | src/proxy/icsproxyserver.cpp:172-210 | For every size of chunks: the connection fails before the handler, in it, or after it for lack of room for the checksum, or is registered and answered. |
| IcsServer.Server.AddIcsCenterConn | src/proxy/icsproxyserver.cpp:898-902 | The center is sent every notice from here on; adding it again changes nothing. |
| IcsServer.Server.RemoveIcsCenterConn | src/proxy/icsproxyserver.cpp:905-909 | The center is sent no notice from here on. |
| IcsPool.ExactlyOneOwner | src/module/mempool.cpp:88-130 | In every run from a pool that was set up, each chunk is in exactly one place: the free list, a live write stream, a send list, or lost. |
| IcsPool.InitHasOneOwner | src/module/mempool.cpp:88-108 | init sets up such a pool, for every chunk size above zero. |
| IcsPool.NowWas | src/module/icsprotocol.cpp:269-289 | Every step moves a chunk from one place to one other. |
| IcsPool.LostExactlyByLeaks | src/module/icsprotocol.cpp:269-289 | A run loses a chunk if and only if it closes a connection whose send list is not empty, or opens a stream on chunks too small for a head. |
| IcsPool.SentInOrder | src/module/icsprotocol.cpp:279-289 | Over every run of a connection that is not closed: the chunks that went back after they were sent, followed by those that still wait, are those that waited at the start followed by those handed over since, in order. The source takes the front of the list (src/module/icsconnection.hpp:216-219). |
| IcsPool.AllReturned | src/module/mempool.cpp:110-130 | When nothing was lost and all was given back, the free list is the first one reordered. |
| IcsPool.ChunksApart | src/module/mempool.cpp:88-108 | Chunks in different places lie apart and inside the buffer. |
| IcsPool.WritesStayInside | src/module/mempool.cpp:88-108 | What is written into one chunk does not reach another. |
| IcsMemory.MemoryPool.constructor | src/module/mempool.cpp:88-108 | The loop fills the free list with the start of every chunk. |
| IcsMemory.MemoryPool.Get | src/module/mempool.cpp:110-121 | The first free chunk at full size, or none. |
| IcsMemory.MemoryPool.Put | src/module/mempool.cpp:123-130 | A chunk goes to the end of the free list. |
| IcsMemory.Memory.OpenStream | src/module/icsprotocol.cpp:231-256 | Takes a chunk, or throws when there is none or it is too small, in which case it is lost. |
| IcsMemory.Memory.DestroyStream | src/module/icsprotocol.cpp:269-275 | The destructor gives back what the stream still holds, and nothing after it was handed over. |
| IcsMemory.Memory.TrySend | src/module/icsprotocol.cpp:279-304 | With room for the checksum the chunk of the stream moves to the send list of the connection, as long as what was written and the checksum; without it nothing moves. |
| IcsMemory.Memory.OnSent | src/module/mempool.cpp:123-130 | The first chunk of the send list goes to the end of the free list, and the rest keep their order. |
| IcsMemory.Memory.DestroyConnection | src/module/icsprotocol.cpp:279-289 | The send list goes with the connection, and its chunks are lost. |
| TinyString.GrowthIsLinear | src/module/tinystr.cpp:67-78 | Over any run of appends reserve copies at most twice the final length, and capacity stays within twice the length. |
| TinyString.AppendsFromEmpty | src/module/tinystr.cpp:67-78 | The same from the empty string. |
| TinyString.TiXmlString.Append | src/module/tinystr.cpp:67-78 | Appends; grows if and only if there is no room, to the new length and the old capacity together; writes the shared representation only with what it holds. |
| TinyString.TiXmlString.Reserve | src/module/tinystr.cpp:37-46 | Keeps the contents and gives room; the bytes copied are counted. |
| TinyString.TiXmlString.Assign | src/module/tinystr.cpp:49-64 | Replaces the contents; the buffer is kept if and only if it has room and is not above three times the length and 24, otherwise it is replaced by one that just fits. |
| TinyString.TiXmlString.Plus | src/module/tinystr.cpp:81-88 | Concatenates with room reserved once and no growth after it. |
| TinyString.TiXmlString.Clear | src/module/tinystr.h:178-186 | Empties the string into the shared representation. |

## Left out

- XmlRoundTrip.PrintThenParse: values and texts are required to be without `&#x`. Read on its own, none with it comes back (`KeptReadExactly`, `TrimmedReadExactly`); that no whole document with it does is not claimed, because a reference without semicolon can be closed by one behind its text, and reading goes on from there.
- XmlExactness.ComesBackExactly: likewise, and unknown tags and declarations, which are printed as they are, must be free of markup.
- XmlGrammar.NodeIsMarkup: of a declaration the grammar says how it starts and ends and that a declaration comes of it, not which fields; those are stated of printed declarations (`DeclarationFields`).
- XmlGrammarReads.NodeReads: an ampersand that starts no reference is excluded, because what follows it can make it one; read on its own it is `AmpersandReads`. Declarations are excluded likewise.
- XmlDomEdit.Dom.LinkEndChild: linking a node that is in a list of children already, that names another parent, or that is an ancestor is excluded; the source asserts the second and would lose nodes in the others. The other edits are not called with a node that is still being read.
- The parser in UTF-8 and the choice of encoding from a byte order mark or a declaration; characters and references in UTF-8 are modelled on their own.
- Rows and columns of errors and nodes while parsing; the cursor is modelled on its own.
- The tree that the parser builds is a value; the linking of its nodes is modelled by `Identify` and `LinkEndChild` on their own.
- The error that an edit records in the document when it refuses a document as a child, and the settings that a document's copy takes over.
- Stream input, printing to files, handles, typed attribute queries: input and output or thin wrappers.
- Opening, measuring and reading the file in `LoadFile`; the newline pass starts from the bytes read.
- Sockets, acceptors, threads, timers, daemon start-up and logging; a connection is what it sends and holds.
- Database calls and the report handlers that copy fields into them.
- The handshake between center and proxy, which rests on encryption that is not part of this model.
- The center's own registry, its direct path to local terminals, and what its terminal handler does with a message after the hand-over.
- The proxy running out of chunks, or out of room in one, for a notice: a failing online notice fails the connection after it was registered, and a failing offline notice, which is thrown in `error()`, declared not to throw, ends the process. Notices always find room here.
- Pieces of upgrade files, and configuration lookup.
- Strings whose argument is a part of themselves in `TiXmlString`.
