# Proofs about the C and C++ libraries of this repository

The project models the parts of the repository with the most state and branching and proves what they are for:
that TinyXML's printer and parser undo each other and that its tree stays a tree under every edit; that log4c's
generated LR parser accepts exactly its grammar; that the hash table, list and stack are what they look like from
outside; that both rolling logs keep the end of what was logged; and that the INI files, base64 texts, line reader,
pattern layouts and category trees do what their names promise. `dafny verify dfyconfig.toml` checks all of it.

Where a promise does not hold for every input, the exact condition under which it holds is proved (the lemmas whose
names end in `Iff`).

| directory | what it holds |
|---|---|
| `tinyxml` | `XmlChars`, `XmlText` and `XmlTextRoundTrip`: characters, entities, escaping, reading texts. `XmlReferences`: numeric references as numbers. `XmlTree`, `XmlPrinter`, `XmlParser`, `XmlRoundTrip`: printer, parse methods, documents. `XmlEncodings`, `XmlMalformed`, `XmlLayout`: which declaration decides, names, space and malformed text, the printed rows. `XmlAttributes`, `XmlDom`: the attribute ring and the linked tree |
| `log4c` | `LrTables`, `LrParser`, `LrSoundness`, `LrLanguage`, `LrDocument`, `LrDriver`: the bison tables, the driver as a step function, parse trees, the language, the document as a walk, the driver as it runs. `SdHash`, `SdList`, `SdStack`: the containers. `SizeWin`: the size window policy and the rolling file appender |
| `log4cpp` | `PatternLayout`: the pattern compiler against a left-to-right meaning. `PatternFields`: what each specifier shows. `RollOver`, `CategoryTree` |
| `util` | `IniFile`, `BufferedFileReader`, `Base64` |
| `common` | `Files`: a file system as a map from names to contents. `Decimals`: decimal numbers. `Chars`, `Sequences`: characters of the C locale, sequences with an element put in or taken out |

How things are represented:

- A `char` is one byte. A C pointer into a NUL-terminated text that is only read is the rest of the text from there on,
  or null. Objects that the code changes in place are classes with the same fields, arrays are arrays, and every
  method is proved against a function or a sequence, map or tree of values.
- What the outside world decides is a parameter: the result of `calloc` in the hash table, how many bytes a `read`
  delivers and whether it fails, whether a file opens, the callback of a list or table walk, the texts that the clock and the
  operating system supply to a pattern.
- TinyXML runs in byte mode (undeclared or legacy encoding, C locale) and in UTF-8 mode, with condensed white space; a
  declaration can change the mode on the way.
- The tables of the LR parser, the base64 tables, the entity table and the table of UTF-8 lengths are those of the
  code.

Results that say when the code keeps its promise, and which inputs break it:

- `&#x` in a text is copied through by the printer, and then the text never reads back (`RawIdentityIff`).
- A decimal reference stands for its number exactly below 5000000000, a hexadecimal one keeps the last 32 bits
  (`DecimalReference`, `HexReference`).
- A value of a declaration is not escaped: it reads back exactly if it holds neither a double quote nor an `&`
  (`PlainIff`), and so does the declaration as a whole (`DeclarationRoundTripIff`).
- An unknown node that starts with a slash is taken for the end tag of the element it is in
  (`ElementRoundTripIff`); a plain text among a document's own children is never read (`DocumentRoundTripIff`).
- A repeated attribute ends the reading of its element without an error (`RepeatedAttribute`).
- An attribute with an empty name and an empty value ends the iteration over the attributes (`XmlTree.ShownIff`), so clones
  lose what follows it (`CloneIff`).
- The assertion of `LinkEndChild` lets a node through that is a child already; its links are then broken (`LinkAgain`).
- The UTF-8 converter and the table that steps over characters disagree from 0x140000 on (`Utf8TableAgreesIff`).
- log4c's rolling file uses a message as a format, so its size field is right exactly if no message in the current file
  holds a percent sign (`WindowHoldsTheEnd`, `SizeWin.ShownIff`, `TwoPercentSignsAreOne`).
- The LR parser accepts what its grammar derives with fitting end names as far as its stack
  goes: always up to 1998 elements within each other, never from 2000 on (`AcceptsIff`, `NestingDecides`).
- `sd_hash_iter_prev` never finds its way back into bucket 0 (`IterPrev`).
- A stack limit of 1 to 31 is not kept and ends in a failed assertion (`FillSmall`).
- `sd_list_sortadd` tests an unsigned number, so it keeps every list sorted exactly for functions that are a strict order
  (`SortAddKeepsSortedIff`); with a three-way comparison only what belongs at the head of the list goes to its place
  (`ThreeWaySortsIff`, `ThreeWayDoesNotSort`).
- `%c{n}` is wrong exactly for names that start with a dot and have fewer than n dots (`LastSegmentsIff`).
- log4cpp's appender without backups and with appending never makes its file smaller (`RollingFileAppender.Append`).

## Model

| member | source | states |
|---|---|---|
| `XmlChars.StringEqual` | src_lib/common/xml/tinyxml/tinyxmlparser.cpp:534-572 | true exactly when the text is not at its end and starts with the tag, with ASCII case folded if asked for |
| `XmlText.SkipWhiteSpace` | src_lib/common/xml/tinyxml/tinyxmlparser.cpp:314-362 | the pointer loop computes the white-space reference `SkipSpace`, with the three skipped byte sequences of UTF-8 mode and the null result at the end |
| `XmlMalformed.GapIsSkipped` | src_lib/common/xml/tinyxml/tinyxmlparser.cpp:314-362 | just the six white-space characters are skipped and, in UTF-8 mode, the bytes EF BB BF, EF BF BE and EF BF BF in any order |
| `XmlText.ReadName` | src_lib/common/xml/tinyxml/tinyxmlparser.cpp:401-436 | takes the longest run of name characters after a legal first one, or gives null |
| `XmlMalformed.NameIsRead` | src_lib/common/xml/tinyxml/tinyxmlparser.cpp:401-436 | a name starts with a letter, an underscore or a byte from 127 on, goes on with these, digits, `-`, `.` and `:`, and ends in front of any other character |
| `XmlMalformed.NoNameIsRead` | src_lib/common/xml/tinyxml/tinyxmlparser.cpp:401-436 | from any other start nothing is read |
| `XmlText.ConvertUTF32ToUTF8` | src_lib/common/xml/tinyxml/tinyxmlparser.cpp:88-126 | the fall-through cases that fill the bytes from the last one agree with the closed form `Utf8Bytes`, for every input |
| `XmlTextRoundTrip.Utf8TableAgreesIff` | src_lib/common/xml/tinyxml/tinyxmlparser.cpp:66-126 | below 0x200000 the written bytes stand for the number again, and the table that steps over characters agrees with the written length exactly below 0x140000 |
| `XmlText.GetEntity` | src_lib/common/xml/tinyxml/tinyxmlparser.cpp:438-531 | the backwards digit loop with its 32-bit and 64-bit wrap-around, the entity table and the two ways to give up agree with the reference `Entity` |
| `XmlReferences.HexReference` | src_lib/common/xml/tinyxml/tinyxmlparser.cpp:450-476 | a hexadecimal reference of any length, in both cases, stands for its number, read from the left, of which the last 32 bits are kept, in UTF-8 or as one byte; the text behind the semicolon is left |
| `XmlReferences.DecimalReference` | src_lib/common/xml/tinyxml/tinyxmlparser.cpp:477-505 | a decimal reference stands for its number exactly if that is below 5000000000; from there on a digit is cut off and the value is too small |
| `XmlReferences.NumberReference` | src_lib/common/xml/tinyxml/tinyxmlparser.cpp:477-505 | so a number below 5000000000 written as `printf` does comes back |
| `XmlReferences.BadReference` | src_lib/common/xml/tinyxml/tinyxmlparser.cpp:438-505 | a reference with any other character in it gives null and no text |
| `XmlReferences.NamedEntities` | src_lib/common/xml/tinyxml/tinyxmlparser.cpp:512-521 | the five names and what they stand for |
| `XmlReferences.UnknownEntity` | src_lib/common/xml/tinyxml/tinyxmlparser.cpp:512-530 | of any other name just the `&` is lost |
| `XmlReferences.EscapeIs` | src_lib/common/xml/tinyxml/tinyxml.cpp:82-130 | what is written for a character: its name, two hexadecimal digits of its number below 32, and else the character |
| `XmlText.GetChar` | src_lib/common/xml/tinyxml/tinyxml.h:331-365 | one character as read in byte or UTF-8 mode, entities decoded, is the reference `Char` |
| `XmlText.ReadRawText` | src_lib/common/xml/tinyxml/tinyxmlparser.cpp:582-595 | the loop that keeps white space computes `RawText` |
| `XmlText.ReadCondensedText` | src_lib/common/xml/tinyxml/tinyxmlparser.cpp:596-633 | the loop that condenses white space computes `CondensedText` |
| `XmlText.ReadText` | src_lib/common/xml/tinyxml/tinyxmlparser.cpp:574-637 | text and stopping place in both modes are those of the reference `TextOf` |
| `XmlText.EncodeString` | src_lib/common/xml/tinyxml/tinyxml.cpp:51-132 | the index loop, with the copying through of `&#x...;`, computes `Encode` |
| `XmlText.CopyReference` | src_lib/common/xml/tinyxml/tinyxml.cpp:59-81 | the inner copying loop stops at the next semicolon, and never takes the last character |
| `XmlText.EscapeChar` | src_lib/common/xml/tinyxml/tinyxml.cpp:82-130 | each branch writes the escape of `EncodeChar` |
| `XmlTextRoundTrip.CharOfEncodeChar` | src_lib/common/xml/tinyxml/tinyxml.cpp:82-130 | reading back the escape of any one-byte character gives that character and leaves what follows |
| `XmlTextRoundTrip.RawRoundTrip` | src_lib/common/xml/tinyxml/tinyxml.cpp:51-132 | escaping and reading without trimming is the identity and stops at the closing character, for every text without `&#x`, over all bytes or well-formed UTF-8 |
| `XmlTextRoundTrip.RawNeverLonger` | src_lib/common/xml/tinyxml/tinyxmlparser.cpp:438-531 | if reading stops at the closing character it gave no more bytes than were escaped, and strictly fewer once a reference was copied through |
| `XmlTextRoundTrip.RawIdentityIff` | src_lib/common/xml/tinyxml/tinyxml.cpp:51-132 | the untrimmed round trip holds exactly for texts without `&#x` |
| `XmlTextRoundTrip.TrimmedText` | src_lib/common/xml/tinyxml/tinyxmlparser.cpp:574-637 | what the trimming reader makes of any escaped text: leading spaces gone, runs condensed, a trailing one dropped |
| `XmlTextRoundTrip.CondensedIsSqueeze` | src_lib/common/xml/tinyxml/tinyxmlparser.cpp:596-633 | the condensing loop over escaped text is `Squeeze` on the text itself |
| `XmlTextRoundTrip.SqueezeIdentityIff` | src_lib/common/xml/tinyxml/tinyxmlparser.cpp:596-633 | condensing changes nothing exactly when no space is last or doubled |
| `XmlTextRoundTrip.LeadIdentityIff` | src_lib/common/xml/tinyxml/tinyxmlparser.cpp:314-362 | skipping at the start takes nothing exactly when the text starts with no space and, in UTF-8, with no skipped mark |
| `XmlTextRoundTrip.TrimmedIdentityIff` | src_lib/common/xml/tinyxml/tinyxmlparser.cpp:574-637 | a printed text reads back as itself exactly when it has no leading, trailing or doubled space and no leading mark |
| `XmlTextRoundTrip.EntityShrinks` | src_lib/common/xml/tinyxml/tinyxmlparser.cpp:438-531 | an entity, known or not, gives fewer bytes than it takes, fails, or reads past the quote behind the value |
| `XmlTextRoundTrip.PlainIff` | src_lib/common/xml/tinyxml/tinyxmlparser.cpp:582-595 | a value that is printed without escaping reads back up to its quote exactly if it holds neither a double quote nor an `&` |
| `XmlPrinter.Printer.DoIndent` | src_lib/common/xml/tinyxml/tinyxml.h:1784-1787 | appends as many indents as the depth says |
| `XmlPrinter.Printer.PrintAttribute` | src_lib/common/xml/tinyxml/tinyxml.cpp:1214-1237 | appends name and value escaped, in the quotes that the value does not hold |
| `XmlPrinter.Printer.PrintAttributes` | src_lib/common/xml/tinyxml/tinyxml.cpp:1773-1777 | appends the attributes that iteration shows in order, each after a space |
| `XmlPrinter.Printer.VisitEnter` | src_lib/common/xml/tinyxml/tinyxml.cpp:1768-1802 | the buffer, depth and one-line mode after a start tag |
| `XmlPrinter.Printer.VisitExit` | src_lib/common/xml/tinyxml/tinyxml.cpp:1805-1828 | undoes the depth and the one-line mode of the start tag, and appends the end tag of an element with children |
| `XmlPrinter.Printer.PrintDeclaration` | src_lib/common/xml/tinyxml/tinyxml.cpp:1420-1439 | appends the header, the values that are not empty, unescaped, and the end mark |
| `XmlPrinter.Printer.Visit` | src_lib/common/xml/tinyxml/tinyxml.cpp:1831-1887 | appends a text, comment, unknown node or declaration as `Body` or, with indent and line break, as `Line` |
| `XmlPrinter.Printer.Accept` | src_lib/common/xml/tinyxml/tinyxml.cpp:846-857 | printing a whole subtree through the visitor appends the recursive `Line` of the tree and restores depth and mode |
| `XmlPrinter.Printer.AcceptChildren` | src_lib/common/xml/tinyxml/tinyxml.cpp:846-857 | the sibling loop appends the pieces of all children in order |
| `XmlPrinter.ElementLine` | src_lib/common/xml/tinyxml/tinyxml.cpp:1768-1828 | start tag, children and end tag together make up the line of the element |
| `XmlPrinter.PrintDocument` | src_lib/common/xml/tinyxml/tinyxml.cpp:1160-1171 | the printer's buffer after a document is the lines of its children |
| `XmlLayout.LinesAre` | src_lib/common/xml/tinyxml/tinyxml.cpp:1768-1887 | printed children, and a printed document, are rows: each is indented by its depth and followed by a line break, an element without children or with a single text has one row, any other its tags around the rows of its children |
| `XmlParser.Identify` | src_lib/common/xml/tinyxml/tinyxmlparser.cpp:818-905 | classifies a node by its header, without regard to case for a declaration |
| `XmlParser.CollectTo` | src_lib/common/xml/tinyxml/tinyxmlparser.cpp:1377-1381 | collects everything before the first end marker, or to the end of the text |
| `XmlParser.ParseComment` | src_lib/common/xml/tinyxml/tinyxmlparser.cpp:1335-1386 | computes `CommentAt`: contents, place behind the end mark, error |
| `XmlParser.ParseCData` | src_lib/common/xml/tinyxml/tinyxmlparser.cpp:1509-1535 | computes `CDataAt`; the second `ReadText` only steps over the end mark |
| `XmlParser.ParseUnknown` | src_lib/common/xml/tinyxml/tinyxmlparser.cpp:1274-1305 | computes `UnknownAt` |
| `XmlParser.ReadUnquoted` | src_lib/common/xml/tinyxml/tinyxmlparser.cpp:1442-1462 | a value without quotes ends at white space, `/` or `>`, and a quote in it is an error |
| `XmlParser.ParseAttribute` | src_lib/common/xml/tinyxml/tinyxmlparser.cpp:1389-1464 | computes `AttributeAt` with the errors of every missing part |
| `XmlParser.ParseElement` | src_lib/common/xml/tinyxml/tinyxmlparser.cpp:1049-1174 | the attribute loop with all its exits computes `ElementAt`, the first error of the document kept |
| `XmlParser.ReadValue` | src_lib/common/xml/tinyxml/tinyxmlparser.cpp:1177-1246 | the loop over texts and child nodes computes `NodesAt`; blank texts are dropped |
| `XmlParser.ParseDeclaration` | src_lib/common/xml/tinyxml/tinyxmlparser.cpp:1572-1628 | the loop over the values, with everything else read over and the errors of its attributes not recorded, computes `DeclarationAt` |
| `XmlParser.ParseNode` | src_lib/common/xml/tinyxml/tinyxmlparser.cpp:818-905 | dispatch on the class of the node computes `NodeAt` |
| `XmlParser.TakeEncoding` | src_lib/common/xml/tinyxml/tinyxmlparser.cpp:767-784 | after a declaration the encoding of what follows is that of `EncodingAfter`, which `EncodingDecides` tells in its own words |
| `XmlParser.ParseDocument` | src_lib/common/xml/tinyxml/tinyxmlparser.cpp:704-796 | computes `DocumentAt`, with the encoding taken from a byte order mark or a declaration on the way and the error of an empty document |
| `XmlEncodings.EncodingDecides` | src_lib/common/xml/tinyxml/tinyxmlparser.cpp:767-783 | the first of any declarations in front of an element decides whether its characters are read as UTF-8 or as bytes, unless the caller has; later ones change nothing |
| `XmlEncodings.BomDecides` | src_lib/common/xml/tinyxml/tinyxmlparser.cpp:734-745 | behind the bytes EF BB BF it is UTF-8, whatever is declared |
| `XmlEncodings.DeclaredUtf8` | src_lib/common/xml/tinyxml/tinyxmlparser.cpp:775-782 | with no encoding, `UTF-8` or `UTF8` declared, in any case, a reference to a number from 0x80 to 0x1FFFFF is read as the UTF-8 sequence of that number |
| `XmlEncodings.DeclaredOther` | src_lib/common/xml/tinyxml/tinyxmlparser.cpp:775-782 | with any other encoding declared it is read as the one byte n % 256, and dropped if that is white space |
| `XmlMalformed.WrongEndTag` | src_lib/common/xml/tinyxml/tinyxmlparser.cpp:1124-1134 | an end tag of another name ends the element with an error, its children kept |
| `XmlMalformed.NoEndTag` | src_lib/common/xml/tinyxml/tinyxmlparser.cpp:1116-1122 | a text that ends behind a start tag gives the element and an error |
| `XmlMalformed.BadEmptyTag` | src_lib/common/xml/tinyxml/tinyxmlparser.cpp:1099-1109 | so does a slash that is not followed by `>` |
| `XmlMalformed.RepeatedAttribute` | src_lib/common/xml/tinyxml/tinyxmlparser.cpp:1157-1168 | a repeated attribute takes the new value, and then the rest of the element is not read, without an error |
| `XmlMalformed.AttributeWithoutValue` | src_lib/common/xml/tinyxml/tinyxmlparser.cpp:1138-1155 | an attribute without a value ends the element with an error |
| `XmlMalformed.UnquotedAttribute` | src_lib/common/xml/tinyxml/tinyxmlparser.cpp:1442-1462 | a value without quotes ends at white space, `/` or `>`; a quote inside it is an error |
| `XmlMalformed.QuotedWithSpaces` | src_lib/common/xml/tinyxml/tinyxmlparser.cpp:1400-1441 | a quoted value reads back from both kinds of quotes, with any white space around the `=` |
| `XmlMalformed.CommentToTheEnd` | src_lib/common/xml/tinyxml/tinyxmlparser.cpp:1335-1386 | a comment without an end takes the rest of the text, without an error |
| `XmlMalformed.NoDocument` | src_lib/common/xml/tinyxml/tinyxmlparser.cpp:704-796 | a document that does not start with a tag is empty, and that is an error |
| `XmlMalformed.FirstErrorStays` | src_lib/common/xml/tinyxml/tinyxmlparser.cpp:744-796 | the error of the first node is the error of the document |
| `XmlRoundTrip.CommentRoundTrip` | src_lib/common/xml/tinyxml/tinyxml.cpp:1868-1876 | a printed comment without its end mark inside reads back as itself, up to what follows |
| `XmlRoundTrip.CDataRoundTrip` | src_lib/common/xml/tinyxml/tinyxml.cpp:1831-1856 | the same for CDATA |
| `XmlRoundTrip.UnknownRoundTrip` | src_lib/common/xml/tinyxml/tinyxml.cpp:1879-1887 | the same for an unknown node that is classified as one |
| `XmlRoundTrip.DeclarationAtMost` | src_lib/common/xml/tinyxml/tinyxmlparser.cpp:1572-1628 | the values read from a declaration and what is left take no more characters than there are, each value in a place of its own |
| `XmlRoundTrip.PartSpoils` | src_lib/common/xml/tinyxml/tinyxml.cpp:1420-1439 | a value with a double quote or an `&` keeps a printed declaration from reading back, whatever the other values and the rest hold |
| `XmlRoundTrip.DeclarationRoundTripIff` | src_lib/common/xml/tinyxml/tinyxml.cpp:1420-1439 | a printed declaration reads back as itself, with empty values left out, exactly if none of its values holds a double quote or an `&` |
| `XmlRoundTrip.NameRoundTrip` | src_lib/common/xml/tinyxml/tinyxmlparser.cpp:401-436 | a good name is read as a whole, whatever other character follows |
| `XmlRoundTrip.AttributeRoundTrip` | src_lib/common/xml/tinyxml/tinyxmlparser.cpp:1389-1464 | a printed attribute reads back with its name, value and no error, for both kinds of quotes |
| `XmlRoundTrip.AttributesRoundTrip` | src_lib/common/xml/tinyxml/tinyxmlparser.cpp:1095-1173 | the printed attributes of an element are read back in their order |
| `XmlRoundTrip.KidsRoundTrip` | src_lib/common/xml/tinyxml/tinyxmlparser.cpp:1177-1246 | the printed children of an element read back, for any white-space indent and line break, up to the end tag |
| `XmlRoundTrip.ElementRoundTrip` | src_lib/common/xml/tinyxml/tinyxmlparser.cpp:1049-1174 | a printed element reads back whole |
| `XmlRoundTrip.NodeRoundTrip` | src_lib/common/xml/tinyxml/tinyxmlparser.cpp:1049-1546 | every printable node that is no plain text parses back to itself without an error and leaves what follows it |
| `XmlRoundTrip.DocumentRoundTrip` | src_lib/common/xml/tinyxml/tinyxmlparser.cpp:704-796 | printing then parsing gives the same document, also when a declaration in it changes the encoding in which the rest is read; the only error is that of an empty one |
| `XmlRoundTrip.DocumentReadsNoText` | src_lib/common/xml/tinyxml/tinyxmlparser.cpp:704-796 | no input at all makes the parser read a plain text among the children of the document itself |
| `XmlRoundTrip.DocumentRoundTripIff` | src_lib/common/xml/tinyxml/tinyxmlparser.cpp:704-796 | a document of nodes that can be printed in the encodings its declarations set comes back exactly when none of its own children is a plain text |
| `XmlRoundTrip.ElementRoundTripIff` | src_lib/common/xml/tinyxml/tinyxmlparser.cpp:1177-1246 | an element of printable parts comes back exactly when no unknown child starts with a slash: such a child is taken for the end tag |
| `XmlRoundTrip.PrintAndParse` | src_lib/common/xml/tinyxml/tinyxml.cpp:1768-1887 | the whole way through the printer object and the parse methods |
| `XmlAttributes.AttributeSet.Find` | src_lib/common/xml/tinyxml/tinyxml.cpp:1575-1583 | the attribute of that name, or null exactly if there is none |
| `XmlAttributes.AttributeSet.Add` | src_lib/common/xml/tinyxml/tinyxml.cpp:1516-1529 | the attribute goes to the end of the ring, which stays linked in both directions |
| `XmlAttributes.AttributeSet.Remove` | src_lib/common/xml/tinyxml/tinyxml.cpp:1531-1547 | the attribute leaves the ring, the others keep their order, its links are cleared |
| `XmlAttributes.AttributeSet.Splice` | src_lib/common/xml/tinyxml/tinyxml.cpp:1531-1547 | the two neighbours are joined and nothing else changes |
| `XmlAttributes.AttributeSet.SetAttribute` | src_lib/common/xml/tinyxml/tinyxml.cpp:717-744 | a known name keeps its place and gets the value, a new one goes to the end |
| `XmlAttributes.AttributeSet.Next` | src_lib/common/xml/tinyxml/tinyxml.cpp:1174-1181 | the next attribute; one with empty name and empty value is taken for the sentinel |
| `XmlAttributes.AttributeSet.CopyTo` | src_lib/common/xml/tinyxml/tinyxml.cpp:824-836 | setting what iteration shows on a new element gives the shown attributes in their order, as new objects |
| `XmlTree.ShownIff` | src_lib/common/xml/tinyxml/tinyxml.cpp:1174-1181 | iteration shows every attribute exactly if none but the first has an empty name and an empty value |
| `XmlAttributes.SetKnown` | src_lib/common/xml/tinyxml/tinyxml.cpp:717-744 | setting a known name replaces one value in place |
| `XmlAttributes.SetNew` | src_lib/common/xml/tinyxml/tinyxml.cpp:717-744 | setting a new name appends |
| `XmlDom.Node.AppendNode` | src_lib/common/xml/tinyxml/tinyxml.cpp:194-207 | the pointer assignments of `LinkEndChild` append to the child sequence |
| `XmlDom.Node.PutBefore` | src_lib/common/xml/tinyxml/tinyxml.cpp:239-254 | the pointer assignments of `InsertBeforeChild` insert into the child sequence |
| `XmlDom.Node.PutAfter` | src_lib/common/xml/tinyxml/tinyxml.cpp:271-286 | the pointer assignments of `InsertAfterChild` insert into the child sequence |
| `XmlDom.Node.PutInPlace` | src_lib/common/xml/tinyxml/tinyxml.cpp:299-314 | the pointer assignments of `ReplaceChild` update one place of the child sequence |
| `XmlDom.Node.TakeOut` | src_lib/common/xml/tinyxml/tinyxml.cpp:325-336 | the pointer assignments of `RemoveChild` drop one place of the child sequence |
| `XmlDom.Node.LinkEndChild` | src_lib/common/xml/tinyxml/tinyxml.cpp:184-208 | an unlinked node from a world of its own, with or without this node as its parent, becomes the last child; all links of both worlds agree and there is no cycle; a document is refused |
| `XmlDom.Node.LinkAgain` | src_lib/common/xml/tinyxml/tinyxml.cpp:184-208 | a node that is a child already, which the assertion lets through, leaves links that fit no sequence of children |
| `XmlDom.NothingFits` | src_lib/common/xml/tinyxml/tinyxml.cpp:197-207 | whichever child was linked again, walking forwards and backwards disagree or do not end |
| `XmlDom.Node.InsertEndChild` | src_lib/common/xml/tinyxml/tinyxml.cpp:211-223 | a clone becomes the last child; all links agree and there is no cycle; a document is refused |
| `XmlDom.Node.InsertBeforeChild` | src_lib/common/xml/tinyxml/tinyxml.cpp:226-255 | a clone is inserted before the child; refused exactly for null, a node of another parent or a document |
| `XmlDom.Node.InsertAfterChild` | src_lib/common/xml/tinyxml/tinyxml.cpp:258-287 | a clone is inserted after the child; refused in the same cases |
| `XmlDom.Node.ReplaceChild` | src_lib/common/xml/tinyxml/tinyxml.cpp:290-315 | a clone takes the place of the child; exactly the child and what is below it are gone, all other links agree and there is no cycle |
| `XmlDom.Node.RemoveChild` | src_lib/common/xml/tinyxml/tinyxml.cpp:318-338 | exactly the child and what is below it are gone and the others keep their order; refused for a node of another parent |
| `XmlDom.Node.Clone` | src_lib/common/xml/tinyxml/tinyxml.cpp:860-868 | a tree of new nodes only, equal to the `CloneOf` of the tree that is cloned, linked nowhere |
| `XmlDom.Node.CloneKids` | src_lib/common/xml/tinyxml/tinyxml.cpp:838-843 | the child loop of `CopyTo` makes the clones of all children, in order |
| `XmlDom.Node.CopyAttributes` | src_lib/common/xml/tinyxml/tinyxml.cpp:831-836 | the attribute loop of `CopyTo` copies what iteration shows |
| `XmlDom.CloneIff` | src_lib/common/xml/tinyxml/tinyxml.cpp:824-868 | a clone equals the tree it was made of exactly if no element hides attributes from iteration and no child is a document |
| `XmlDom.CanLinkIff` | src_lib/common/xml/tinyxml/tinyxml.cpp:184-208 | an unlinked node can be linked under `p` without a cycle exactly if `p` is not below it |
| `XmlDom.NoCycle` | src_lib/common/xml/tinyxml/tinyxml.cpp:184-338 | in every state that the editing methods keep, no node is below its own child |
| `XmlDom.MergeForest` | src_lib/common/xml/tinyxml/tinyxml.cpp:184-208 | two separate worlds of linked nodes make one, with the first above the second |
| `XmlDom.SplitOff` | src_lib/common/xml/tinyxml/tinyxml.cpp:318-338 | an unlinked node and all below it can be taken out, and both parts stay consistent |
| `XmlDom.RemainsIs` | src_lib/common/xml/tinyxml/tinyxml.cpp:318-338 | deleting a node that was taken out leaves exactly what was not below it where it was |
| `XmlDom.ParentIs` | src_lib/common/xml/tinyxml/tinyxml.cpp:226-338 | the parent that a node names is the node it is linked under, as the refusals of the editing methods need |
| `XmlDom.TreeStays` | src_lib/common/xml/tinyxml/tinyxml.cpp:860-868 | the tree below a new node is the same in every larger world |
| `XmlDom.SameTree` | src_lib/common/xml/tinyxml/tinyxml.cpp:860-868 | the tree below a node depends only on the nodes below it |
| `LrTables.DecideIs` | src_lib/common/log/log4c-1.2.1/src/xml-parser/domnode-xml-parser.c:177-216 | for all 28 states and 24 tokens the packed tables encode the automaton that is written out state by state |
| `LrTables.GotoIs` | src_lib/common/log/log4c-1.2.1/src/xml-parser/domnode-xml-parser.c:184-216 | the packed gotos are those of that automaton |
| `LrTables.RhsIs` | src_lib/common/log/log4c-1.2.1/src/xml-parser/domnode-xml-parser.c:122-133 | the right-hand sides of the 17 rules as the tables hold them |
| `LrTables.ErrorTokenIsNeverTaken` | src_lib/common/log/log4c-1.2.1/src/xml-parser/domnode-xml-parser.c:1206-1213 | no state accepts the error token, so no error is ever recovered from |
| `LrParser.ReduceEdge` | src_lib/common/log/log4c-1.2.1/src/xml-parser/domnode-xml-parser.c:887-1075 | when a rule is reduced its right-hand side is on top of the stack, and the goto keeps the chain of states |
| `LrParser.RoundIsSafe` | src_lib/common/log/log4c-1.2.1/src/xml-parser/domnode-xml-parser.c:770-886 | no table entry leads out of the stacks or the tables |
| `LrParser.StepDecreases` | src_lib/common/log/log4c-1.2.1/src/xml-parser/domnode-xml-parser.c:676-1075 | every round takes a token or lowers a measure: the driver cannot reduce for ever |
| `LrSoundness.ElementsAreOpenTags` | src_lib/common/log/log4c-1.2.1/src/xml-parser/domnode-xml-parser.c:940-998 | the element stack always holds exactly the names of the start tags whose end tag is still to come |
| `LrSoundness.ReduceActs` | src_lib/common/log/log4c-1.2.1/src/xml-parser/domnode-xml-parser.c:925-1035 | every action does to the document what its parse tree stands for; the only one that can fail is a wrong end name |
| `LrSoundness.ReduceKeeps` | src_lib/common/log/log4c-1.2.1/src/xml-parser/domnode-xml-parser.c:887-1075 | a reduction keeps the stack of parse trees that belongs to the configuration |
| `LrSoundness.ShiftKeeps` | src_lib/common/log/log4c-1.2.1/src/xml-parser/domnode-xml-parser.c:852-871 | so does a shift |
| `LrDriver.ElementIsOpen` | src_lib/common/log/log4c-1.2.1/src/xml-parser/domnode-xml-parser.c:971-1033 | wherever the code asserts that an element is open, one is |
| `LrLanguage.AtAccept` | src_lib/common/log/log4c-1.2.1/src/xml-parser/domnode-xml-parser.c:1243-1247 | on acceptance the element stack is empty, the stack holds one parse tree of all tokens, and the root is its document |
| `LrLanguage.Soundness` | src_lib/common/log/log4c-1.2.1/src/xml-parser/domnode-xml-parser.c:597-1268 | if the parser accepts, the tokens are derivable from the 17 rules, every end name equals its start name, and the root is the tree's document |
| `LrLanguage.ReadNode` | src_lib/common/log/log4c-1.2.1/src/xml-parser/domnode-xml-parser.c:597-1268 | from any place inside a derivable element the driver reads to its end exactly if the element's peak fits the stack |
| `LrLanguage.Completeness` | src_lib/common/log/log4c-1.2.1/src/xml-parser/domnode-xml-parser.c:597-1268 | every derivable token sequence whose end names fit is accepted with its document if the height its tree needs is below YYMAXDEPTH, and else the stack overflows |
| `LrLanguage.PeakBounds` | src_lib/common/log/log4c-1.2.1/src/xml-parser/domnode-xml-parser.c:685-740 | lists are left recursive, so a document whose elements are d deep needs 5d+1 to 5d+4 states above the first, whatever its width |
| `LrLanguage.NestingDecides` | src_lib/common/log/log4c-1.2.1/src/xml-parser/domnode-xml-parser.c:685-740 | documents up to 1998 elements deep are accepted, those of 2000 and more overflow the stack |
| `LrLanguage.AcceptsIff` | src_lib/common/log/log4c-1.2.1/src/xml-parser/domnode-xml-parser.c:597-1268 | the accepted language is exactly that of the grammar with fitting end names and trees that the stack can hold |
| `LrDocument.AttributesAre` | src_lib/common/log/log4c-1.2.1/src/xml-parser/domnode-xml-parser.c:1018-1035 | the attributes of an element are its NAME and VALUE tokens in their order, with an empty value for a name alone |
| `LrDocument.ContentIs` | src_lib/common/log/log4c-1.2.1/src/xml-parser/domnode-xml-parser.c:927-1011 | data, elements and comments in an element: the last data is its value, the others its children in their order |
| `LrDocument.ElementIs` | src_lib/common/log/log4c-1.2.1/src/xml-parser/domnode-xml-parser.c:940-999 | an element as a whole |
| `LrDocument.SameWalk` | src_lib/common/log/log4c-1.2.1/src/xml-parser/domnode-xml-parser.c:925-1035 | a walk tells everything: two documents with the same walk are equal |
| `LrDocument.AcceptedDocument` | src_lib/common/log/log4c-1.2.1/src/xml-parser/domnode-xml-parser.c:925-1035 | an accepted document, walked from its start to its end, gives exactly the events that the tokens give when read from left to right, and no other document does |
| `LrDriver.Parser.Lex` | src_lib/common/log/log4c-1.2.1/src/xml-parser/domnode-xml-parser.c:785-795 | the next token code, or 0 at the end, without losing one |
| `LrDriver.Parser.Backup` | src_lib/common/log/log4c-1.2.1/src/xml-parser/domnode-xml-parser.c:773-881 | the lookups of the driver, reading a token only when the state needs one, decide as `Decide` |
| `LrDriver.Parser.ShiftToken` | src_lib/common/log/log4c-1.2.1/src/xml-parser/domnode-xml-parser.c:852-871 | the stacks after a shift; the end of the input stays |
| `LrDriver.Parser.Act` | src_lib/common/log/log4c-1.2.1/src/xml-parser/domnode-xml-parser.c:925-1035 | the actions on the document being made, and when they fail |
| `LrDriver.Parser.ReduceRule` | src_lib/common/log/log4c-1.2.1/src/xml-parser/domnode-xml-parser.c:887-1075 | the stacks, the value and the document after a reduction |
| `LrDriver.Parser.Unwind` | src_lib/common/log/log4c-1.2.1/src/xml-parser/domnode-xml-parser.c:1183-1213 | error unwinding empties the stacks whatever the state |
| `LrDriver.Parser.Yyparse` | src_lib/common/log/log4c-1.2.1/src/xml-parser/domnode-xml-parser.c:597-1268 | 0 exactly when the reference run accepts: then no element is open, the root is the document of a parse tree, and a walk over it gives the events that the tokens give from left to right; 1 only if there is no parse; tokens with a parse give 0 if its height is below YYMAXDEPTH and 2 otherwise |
| `LrDriver.Round` | src_lib/common/log/log4c-1.2.1/src/xml-parser/domnode-xml-parser.c:676-1075 | one round of the code is one step of the reference run |
| `LrDriver.NotAccepted` | src_lib/common/log/log4c-1.2.1/src/xml-parser/domnode-xml-parser.c:1250-1255 | an abort means that the tokens have no parse |
| `SdHash.Hash.constructor` | src_lib/common/log/log4c-1.2.1/src/sd/hash.c:60-88 | an empty map, with the default size for 0 |
| `SdHash.Hash.Lookup` | src_lib/common/log/log4c-1.2.1/src/sd/hash.c:91-105 | the node of the key, or null exactly if there is none |
| `SdHash.LinkFront` | src_lib/common/log/log4c-1.2.1/src/sd/hash.c:47-49 | a node is put at the front of its bucket and all buckets stay linked in both directions |
| `SdHash.Hash.MoveNode` | src_lib/common/log/log4c-1.2.1/src/sd/hash.c:43-51 | one node of an old bucket goes to its place in the new table |
| `SdHash.Hash.MoveBucket` | src_lib/common/log/log4c-1.2.1/src/sd/hash.c:43-51 | the inner loop of `rehash` moves a whole bucket although it rewrites the links it walks along |
| `SdHash.Hash.MoveAll` | src_lib/common/log/log4c-1.2.1/src/sd/hash.c:42-52 | the outer loop moves every node exactly once |
| `SdHash.Hash.Rehash` | src_lib/common/log/log4c-1.2.1/src/sd/hash.c:29-57 | four times the size and exactly the same map; nothing happens without memory |
| `SdHash.Hash.Insert` | src_lib/common/log/log4c-1.2.1/src/sd/hash.c:127-135 | a new key is added to the map and its node to its bucket |
| `SdHash.Hash.LookAdd` | src_lib/common/log/log4c-1.2.1/src/sd/hash.c:108-136 | an existing node is returned, a new one added after growing if needed; the load stays at most 2 * size + 1 when memory suffices |
| `SdHash.Hash.Add` | src_lib/common/log/log4c-1.2.1/src/sd/hash.c:139-154 | the map updated at the key, also when the node existed |
| `SdHash.JoinNeighbours` | src_lib/common/log/log4c-1.2.1/src/sd/hash.c:312-317 | the neighbours of a node are joined, with the bucket head updated if it was first |
| `SdHash.Unlink` | src_lib/common/log/log4c-1.2.1/src/sd/hash.c:312-319 | the bucket loses exactly that node |
| `SdHash.Hash.IterDel` | src_lib/common/log/log4c-1.2.1/src/sd/hash.c:295-322 | the map loses exactly that key; during a walk only the mark is taken back and the data cleared |
| `SdHash.Hash.Del` | src_lib/common/log/log4c-1.2.1/src/sd/hash.c:186-197 | the map loses the key if it is there |
| `SdHash.Hash.Begin` | src_lib/common/log/log4c-1.2.1/src/sd/hash.c:239-249 | the first node in bucket order, or null |
| `SdHash.Hash.IterNext` | src_lib/common/log/log4c-1.2.1/src/sd/hash.c:258-273 | the node after this one in bucket order, or null |
| `SdHash.Hash.IterPrev` | src_lib/common/log/log4c-1.2.1/src/sd/hash.c:276-292 | the node before this one in bucket order exactly if that is not the last of bucket 0 seen from another bucket; then it is null |
| `SdHash.Hash.LastOf` | src_lib/common/log/log4c-1.2.1/src/sd/hash.c:286-289 | the inner loop finds the last node of a bucket, or null |
| `SdHash.Hash.IterateAll` | src_lib/common/log/log4c-1.2.1/src/sd/hash.c:239-273 | walking from the beginning visits every node exactly once and ends |
| `SdHash.Hash.Callback` | src_lib/common/log/log4c-1.2.1/src/sd/hash.c:295-310 | a callback that deletes its own node leaves it in the table, without its mark and its data |
| `SdHash.Hash.Visit` | src_lib/common/log/log4c-1.2.1/src/sd/hash.c:210-219 | one node of a walk: the callback, the deletion that was put off, and the node that came next |
| `SdHash.Hash.WalkBucket` | src_lib/common/log/log4c-1.2.1/src/sd/hash.c:209-221 | the inner loop goes through one bucket although nodes are taken out of it |
| `SdHash.Hash.Foreach` | src_lib/common/log/log4c-1.2.1/src/sd/hash.c:200-222 | the nodes are visited once each, in bucket order, up to the first that stops the walk; exactly the deleted ones leave the order and the map |
| `SdHash.WalkOne` | src_lib/common/log/log4c-1.2.1/src/sd/hash.c:209-221 | a visit moves the walk on by one node of the order it began with, deleted or not |
| `SdHash.FlatWithout` | src_lib/common/log/log4c-1.2.1/src/sd/hash.c:239-273 | taking a node out of its bucket takes it out of the bucket order |
| `SdHash.Hash.Do` | src_lib/common/log/log4c-1.2.1/src/sd/hash.c:91-322 | one call of a run does to the map what it should and returns what the map says, whatever memory there is |
| `SdHash.Replay` | src_lib/common/log/log4c-1.2.1/src/sd/hash.c:60-322 | any run of adding, looking up and both ways of deleting, with any results of `calloc`, on a new table of any size refines the same run on a map, answer by answer, with the load bound at the end if no table was refused |
| `SdHash.MovedStep` | src_lib/common/log/log4c-1.2.1/src/sd/hash.c:42-52 | what has been moved so far, after one more node |
| `SdHash.FlatNoDup` | src_lib/common/log/log4c-1.2.1/src/sd/hash.c:239-273 | in bucket order no node comes twice |
| `SdHash.WalkGoesByHash` | src_lib/common/log/log4c-1.2.1/src/sd/hash.c:239-273 | a walk meets the nodes by rising remainders of their hash values |
| `SdList.List.Prepend` | src_lib/common/log/log4c-1.2.1/src/sd/list.c:299-322 | the sequence with the new node in front; also `sd_list_add` of lines 119-141 |
| `SdList.List.Append` | src_lib/common/log/log4c-1.2.1/src/sd/list.c:325-348 | the sequence with the new node at the end |
| `SdList.List.IterInsert` | src_lib/common/log/log4c-1.2.1/src/sd/list.c:271-296 | the sequence with the new node before the given one |
| `SdList.List.IterDel` | src_lib/common/log/log4c-1.2.1/src/sd/list.c:245-268 | the sequence without the node; during the walk that is at the node only the mark is taken back |
| `SdList.List.Lookup` | src_lib/common/log/log4c-1.2.1/src/sd/list.c:92-103 | the first node with the data, or null exactly if there is none |
| `SdList.List.Del` | src_lib/common/log/log4c-1.2.1/src/sd/list.c:162-178 | the sequence without the first node that has the data |
| `SdList.List.SortAdd` | src_lib/common/log/log4c-1.2.1/src/sd/list.c:144-159 | inserted before the first element that comes after it; a sorted list stays sorted under a strict order |
| `SdList.SortAddKeepsSortedIff` | src_lib/common/log/log4c-1.2.1/src/sd/list.c:144-159 | sorted insertion keeps every list sorted exactly when the function's "not zero" is a strict order |
| `SdList.ThreeWaySortsIff` | src_lib/common/log/log4c-1.2.1/src/sd/list.c:144-159 | the test is on an unsigned number, so a three-way comparison says "after" of any two different elements: an ascending list stays ascending exactly if it is empty or the new element is at most its first |
| `SdList.ThreeWayDoesNotSort` | src_lib/common/log/log4c-1.2.1/src/sd/list.c:144-159 | 2 goes in front of 1 |
| `SdList.List.Callback` | src_lib/common/log/log4c-1.2.1/src/sd/list.c:245-253 | a callback that deletes the node it is called on only takes back the mark of the walk |
| `SdList.List.Visit` | src_lib/common/log/log4c-1.2.1/src/sd/list.c:189-203 | one step of a walk: the callback may delete the node it is called on, and the next node is still found |
| `SdList.List.Foreach` | src_lib/common/log/log4c-1.2.1/src/sd/list.c:181-204 | elements are visited once each in order until one stops the walk, those deleted are gone, all others keep their places, all links stay consistent |
| `SdList.List.RForeach` | src_lib/common/log/log4c-1.2.1/src/sd/list.c:207-230 | the same from the tail |
| `SdList.AheadStep` | src_lib/common/log/log4c-1.2.1/src/sd/list.c:189-203 | a visit moves the walk on by exactly one element, deleted or not |
| `SdList.BehindStep` | src_lib/common/log/log4c-1.2.1/src/sd/list.c:215-229 | the same for the walk from the tail |
| `SdList.BothWaysAgree` | src_lib/common/log/log4c-1.2.1/src/sd/list.c:181-230 | when the callback goes by the data and never stops, both walks visit everything, in opposite orders, and leave the same filtered list |
| `SdStack.Stack.Push` | src_lib/common/log/log4c-1.2.1/src/sd/stack.c:123-147 | pushed on top, refused exactly at the limit, and the assertion fails exactly for a limit below 32 with 32 elements; how many slots were copied, none if the array was kept |
| `SdStack.Stack.Pop` | src_lib/common/log/log4c-1.2.1/src/sd/stack.c:150-164 | takes the top element, or null if there is none; shrinking loses nothing; how many slots were copied |
| `SdStack.Stack.Peek` | src_lib/common/log/log4c-1.2.1/src/sd/stack.c:114-120 | the top element, or null |
| `SdStack.Stack.Realloc` | src_lib/common/log/log4c-1.2.1/src/sd/stack.c:137-138 | the kept part of the array, and how many slots were copied |
| `SdStack.GrowthIsPaid` | src_lib/common/log/log4c-1.2.1/src/sd/stack.c:128-138 | a growth copies no more than the potential it uses up, also when it stops at the limit |
| `SdStack.ShrinkIsPaid` | src_lib/common/log/log4c-1.2.1/src/sd/stack.c:155-160 | so does a shrink |
| `SdStack.Replay` | src_lib/common/log/log4c-1.2.1/src/sd/stack.c:44-164 | any run with no limit or one of at least 32 answers as a limited list does, keeps 32 <= size <= max, and copies at most 2 slots for each operation |
| `SdStack.FillSmall` | src_lib/common/log/log4c-1.2.1/src/sd/stack.c:123-147 | a limit of 1 to 31 takes 32 elements and then fails the assertion |
| `SdStack.PopUndoesPush` | src_lib/common/log/log4c-1.2.1/src/sd/stack.c:123-164 | last in, first out, after any run |
| `SdStack.NeverAboveMax` | src_lib/common/log/log4c-1.2.1/src/sd/stack.c:123-147 | no run gets above the limit |
| `Decimals.DecimalInjective` | src_lib/common/log/log4c-1.2.1/src/log4c/rollingpolicy_type_sizewin.c:334-349 | different indices are written differently, so no two files of a window have one name |
| `SizeWin.FileNamesDiffer` | src_lib/common/log/log4c-1.2.1/src/log4c/rollingpolicy_type_sizewin.c:334-349 | the file names of a window are pairwise different |
| `SizeWin.Policy.MakeFilenameArray` | src_lib/common/log/log4c-1.2.1/src/log4c/rollingpolicy_type_sizewin.c:317-330 | one name for each index, all different |
| `SizeWin.Policy.GetLastIndex` | src_lib/common/log/log4c-1.2.1/src/log4c/rollingpolicy_type_sizewin.c:353-377 | the files up to the result exist and the next one does not |
| `SizeWin.Policy.Init` | src_lib/common/log/log4c-1.2.1/src/log4c/rollingpolicy_type_sizewin.c:198-228 | the window is ready, whatever files were there, and holds just those that were found |
| `SizeWin.FoundIs` | src_lib/common/log/log4c-1.2.1/src/log4c/rollingpolicy_type_sizewin.c:353-377 | these are the files from index 0 up to the first that is missing |
| `SizeWin.Policy.RotateUp` | src_lib/common/log/log4c-1.2.1/src/log4c/rollingpolicy_type_sizewin.c:161-171 | the counting-down loop of renames moves every file up by one and touches no other |
| `SizeWin.Policy.Rollover` | src_lib/common/log/log4c-1.2.1/src/log4c/rollingpolicy_type_sizewin.c:97-194 | an empty file in front, the oldest file gone when the window is full, every other file kept in order, no other name changed; also with one file |
| `SizeWin.RolledIs` | src_lib/common/log/log4c-1.2.1/src/log4c/rollingpolicy_type_sizewin.c:97-194 | unlinking, renaming and opening together give the rolled window |
| `SizeWin.WindowIsSuffix` | src_lib/common/log/log4c-1.2.1/src/log4c/rollingpolicy_type_sizewin.c:97-194 | the newest files hold the end of what all files held |
| `SizeWin.PrintedIff` | src_lib/common/log/log4c-1.2.1/src/log4c/appender_type_rollingfile.c:160-161 | a message that is used as a format without arguments prints at its own length exactly if it holds no percent sign, and then it prints itself |
| `SizeWin.TwoPercentSignsAreOne` | src_lib/common/log/log4c-1.2.1/src/log4c/appender_type_rollingfile.c:160-161 | two percent signs print as one |
| `SizeWin.ShownIff` | src_lib/common/log/log4c-1.2.1/src/log4c/appender_type_rollingfile.c:160-161 | what the messages of a file add up to has their total length exactly if none holds a percent sign |
| `SizeWin.MadeByHoldsAll` | src_lib/common/log/log4c-1.2.1/src/log4c/appender_type_rollingfile.c:123-179 | the messages of the files made, read from the oldest file on, are all the messages logged, in their order |
| `SizeWin.MadeByFits` | src_lib/common/log/log4c-1.2.1/src/log4c/appender_type_rollingfile.c:135-171 | no file made is longer than the maximum unless it holds a single message, and none is left while the next message fits |
| `SizeWin.NewestHoldTheEnd` | src_lib/common/log/log4c-1.2.1/src/log4c/appender_type_rollingfile.c:123-179 | the newest files of those made and found hold the end of all that was found and logged |
| `SizeWin.RollingFile.constructor` | src_lib/common/log/log4c-1.2.1/src/log4c/appender_type_rollingfile.c:48-119 | opening rolls once, with the policy initialised unless it has been before: one new file without messages in front of those found, size 0 |
| `SizeWin.RollingFile.CheckTrigger` | src_lib/common/log/log4c-1.2.1/src/log4c/appender_type_rollingfile.c:135-158 | a new file is made exactly if the message would exceed the maximum, and the window is again the newest of the files |
| `SizeWin.RollingFile.Print` | src_lib/common/log/log4c-1.2.1/src/log4c/appender_type_rollingfile.c:160-171 | the message is added to the file in front, which grows by what it prints, the size field by its length |
| `SizeWin.RollingFile.Append` | src_lib/common/log/log4c-1.2.1/src/log4c/appender_type_rollingfile.c:123-179 | after one message: the files made with their messages, the whole window as the newest of the files made and found, and the size field as the total length of the messages in the current file |
| `SizeWin.RollingFile.WindowHoldsTheEnd` | src_lib/common/log/log4c-1.2.1/src/log4c/appender_type_rollingfile.c:48-179 | in every reachable state 0 <= last_index < max, the window read from the oldest file on is a suffix of everything found and logged, the size is that of file 0 exactly if no message in it holds a percent sign, and every file made is within the maximum or holds one message |
| `SizeWin.LogAll` | src_lib/common/log/log4c-1.2.1/src/log4c/appender_type_rollingfile.c:48-179 | the same after a whole run from any file system: the files made hold exactly the messages logged in their order, split just where the next one would not fit, and the window is the newest of these and the files found |
| `RollOver.Rewritten` | src_lib/common/log/log4cpp-1.1/src/RollingFileAppender.cpp:57-79 | writing a number over the last one in the stream's buffer gives the other backup's name, also with fewer digits |
| `RollOver.HoldsIs` | src_lib/common/log/log4cpp-1.1/src/RollingFileAppender.cpp:57-79 | the C string of the buffer is exactly the backup's name, whatever is left behind its end |
| `RollOver.NamesDiffer` | src_lib/common/log/log4cpp-1.1/src/RollingFileAppender.cpp:57-79 | different backups have different names |
| `RollOver.MovedStep` | src_lib/common/log/log4cpp-1.1/src/RollingFileAppender.cpp:64-75 | one rename of the counting-down loop, also when its source is missing |
| `RollOver.RollingFileAppender.RollOver` | src_lib/common/log/log4cpp-1.1/src/RollingFileAppender.cpp:57-79 | with n >= 1 backups all move up at once: file.i is the old file.(i-1) or absent, the current file is fresh, no other name changes; with 0 the file is only opened again |
| `RollOver.RollingFileAppender.Append` | src_lib/common/log/log4cpp-1.1/src/RollingFileAppender.cpp:81-91 | the files after one message, and one more backup known as made by the appender exactly when it rolls; every reachable state holds a suffix of all that was written, the backups made are at least the maximal size, and the current file is below it unless there is no backup and no truncation |
| `RollOver.RollLosesTheOldest` | src_lib/common/log/log4cpp-1.1/src/RollingFileAppender.cpp:57-79 | a roll loses the oldest backup's text and nothing else, whatever gaps there were |
| `RollOver.HeldGrows` | src_lib/common/log/log4cpp-1.1/src/RollingFileAppender.cpp:81-91 | what is written comes last in the window |
| `RollOver.FullShifts` | src_lib/common/log/log4cpp-1.1/src/RollingFileAppender.cpp:57-91 | the backups made so far stay at least of the maximal size after one more roll |
| `IniFile.TrimIff` | src_lib/common/util/src/ini.cpp:491-498 | trimming changes nothing exactly if there is no space at either end |
| `IniFile.CIniFile.TrimInPlace` | src_lib/common/util/src/ini.cpp:491-498 | removes the spaces at both ends and nothing else |
| `IniFile.CIniFile.CheckCase` | src_lib/common/util/src/ini.cpp:483-488 | folds to lower case exactly if names are compared that way |
| `IniFile.CIniFile.FindIn` | src_lib/common/util/src/ini.cpp:136-153 | the first name that matches up to case, or noID |
| `IniFile.MatchesIff` | src_lib/common/util/src/ini.cpp:483-488 | names match exactly if they are equal or, where case does not matter, have the same letters |
| `IniFile.TrimSplits` | src_lib/common/util/src/ini.cpp:491-498 | trimming takes off spaces at both ends and leaves none |
| `IniFile.CIniFile.AddKeyName` | src_lib/common/util/src/ini.cpp:155-161 | a new empty section at the end |
| `IniFile.CIniFile.SetValue` | src_lib/common/util/src/ini.cpp:209-232 | true exactly if what is missing may be created or there is a matching value; then the first matching value of the first matching section holds the trimmed value and everything else is as before, told by the names alone; otherwise nothing changes |
| `IniFile.WithValueIs` | src_lib/common/util/src/ini.cpp:209-232 | the first section whose name matches and its first value whose name matches hold the trimmed value; every other section, value and comment is as before, and there is one more name just where nothing matched |
| `IniFile.CIniFile.GetValue` | src_lib/common/util/src/ini.cpp:268-279 | the first matching value of the first matching section, or the default |
| `IniFile.SetThenGet` | src_lib/common/util/src/ini.cpp:209-279 | after a value was set it is got by every pair of names that matches, and every other pair gets what it got before |
| `IniFile.CIniFile.WriteSection` | src_lib/common/util/src/ini.cpp:115-126 | the lines of one section: its name, comments, values and a blank line |
| `IniFile.CIniFile.KeyComment` | src_lib/common/util/src/ini.cpp:425-431 | a comment at the end of the first matching section, if any |
| `IniFile.CIniFile.TakeLine` | src_lib/common/util/src/ini.cpp:64-95 | what one line does to the object and the current section |
| `IniFile.LineMeans` | src_lib/common/util/src/ini.cpp:64-95 | a line is told by its first special character: it sets a value, adds a comment or starts a section; a `[` without a `]` does nothing |
| `IniFile.CIniFile.ReadFile` | src_lib/common/util/src/ini.cpp:46-101 | reading a file is taking its lines one after the other; true exactly if there is a section then |
| `IniFile.LastValueWins` | src_lib/common/util/src/ini.cpp:46-101 | of several values of one name in a section the last one stays |
| `IniFile.CIniFile.WriteFile` | src_lib/common/util/src/ini.cpp:103-134 | the text written: header comments, then each section with its comments and values |
| `IniFile.WrittenText` | src_lib/common/util/src/ini.cpp:103-134 | the text of a file with a comment, a section, its comment and a value, character by character |
| `IniFile.ReadTextClean` | src_lib/common/util/src/ini.cpp:46-101 | whatever the text, what is read is trimmed and free of line ends, and no section has two values of one name |
| `IniFile.ReadLineUnrepeated` | src_lib/common/util/src/ini.cpp:46-101 | only the first section of a name is ever given values and comments |
| `IniFile.RoundTrip` | src_lib/common/util/src/ini.cpp:46-134 | reading what was written into an empty object restores sections, values and comments in order |
| `IniFile.RoundTripIff` | src_lib/common/util/src/ini.cpp:46-134 | the round trip restores an object exactly if names and values are trimmed, nothing holds a line end, value names are distinct in a section and free of the special characters, and a section that repeats a name is empty |
| `IniFile.SetValueClean` | src_lib/common/util/src/ini.cpp:209-232 | setting a value without line ends and special characters keeps what the round trip needs |
| `IniFile.SaveAndLoad` | src_lib/common/util/src/ini.cpp:46-134 | writing one object and reading the file into another gives an equal one |
| `PatternLayout.PatternLayout.SetConversionPattern` | src_lib/common/log/log4cpp-1.1/src/PatternLayout.cpp:276-388 | the stream loop builds the component vector of `Compile`, or rejects the pattern exactly when that does |
| `PatternLayout.PatternLayout.ReadSpecifier` | src_lib/common/log/log4cpp-1.1/src/PatternLayout.cpp:291-323 | widths, letter and brace postfix of a specifier as read from the stream, pending widths carried on |
| `PatternLayout.PatternLayout.ReadPostfix` | src_lib/common/log/log4cpp-1.1/src/PatternLayout.cpp:313-323 | the text up to the closing brace, or to the end |
| `PatternLayout.PatternLayout.Format` | src_lib/common/log/log4cpp-1.1/src/PatternLayout.cpp:394-403 | the texts of all components one after the other |
| `PatternLayout.CompileCorrect` | src_lib/common/log/log4cpp-1.1/src/PatternLayout.cpp:276-403 | for every pattern and event, running the compiled components writes what a left-to-right reading of the pattern means, with batched literals and widths that wait past `%n` and `%%` |
| `PatternLayout.PatternLayout.Layout` | src_lib/common/log/log4cpp-1.1/src/PatternLayout.cpp:276-403 | compiling and formatting give the meaning of the pattern, including rejection and a thrown exception |
| `PatternLayout.FieldRuns` | src_lib/common/log/log4cpp-1.1/src/PatternLayout.cpp:324-378 | the component of each letter writes what the field means, cut and padded |
| `PatternLayout.FitIs` | src_lib/common/log/log4cpp-1.1/src/PatternLayout.cpp:225-242 | cutting comes first: the result is a prefix of the message at one end of a field filled with spaces |
| `PatternFields.IntIsRead` | src_lib/common/log/log4cpp-1.1/src/PatternLayout.cpp:295-297 | the number of a width is the digits behind spaces and a sign, negative behind a minus sign; one that does not fit an `int`, or none, is an error |
| `PatternFields.SizeIsRead` | src_lib/common/log/log4cpp-1.1/src/PatternLayout.cpp:300-302 | the number behind the period likewise, where `-n` wraps around |
| `PatternFields.SpecifierRead` | src_lib/common/log/log4cpp-1.1/src/PatternLayout.cpp:291-323 | `n`, `-n`, `.k` and a letter are read as they were written, for every n that fits an `int` and k that fits a `size_t` |
| `PatternFields.WidthsAreShown` | src_lib/common/log/log4cpp-1.1/src/PatternLayout.cpp:225-242 | for every event `%n` and `%-n` with or without `.k` show the first k characters of the field, at the right or the left end of n characters filled up with spaces |
| `PatternFields.CategoryIsShown` | src_lib/common/log/log4cpp-1.1/src/PatternLayout.cpp:64-97 | `%c{n}` shows the text that `LastSegmentsIff` describes |
| `PatternFields.NoSegments` | src_lib/common/log/log4cpp-1.1/src/PatternLayout.cpp:64-97 | `%c` alone and `%c{-1}` show the whole name, and with 0 or any other negative number an exception is thrown |
| `PatternFields.ThreeDigitsAre` | src_lib/common/log/log4cpp-1.1/src/PatternLayout.cpp:161-163 | milliseconds from 0 to 999 take three digits, which stand for their number |
| `PatternFields.TimeIsShown` | src_lib/common/log/log4cpp-1.1/src/PatternLayout.cpp:129-180 | `%d{f}` shows the time in its format, or one of the named formats, in which the first `%l` has become the three digits of the milliseconds |
| `PatternFields.LiteralIsShown` | src_lib/common/log/log4cpp-1.1/src/PatternLayout.cpp:379-386 | text without a percent sign shows itself |
| `PatternFields.OtherLetters` | src_lib/common/log/log4cpp-1.1/src/PatternLayout.cpp:324-366 | `%%` is a percent sign, `%n` a line end, and a letter that names nothing rejects the pattern |
| `PatternFields.NoLetterIsRejected` | src_lib/common/log/log4cpp-1.1/src/PatternLayout.cpp:306-310 | so does a specifier without a letter |
| `PatternFields.BadWidthIsRejected` | src_lib/common/log/log4cpp-1.1/src/PatternLayout.cpp:295-310 | so does a width without a digit or one that does not fit an `int` |
| `PatternFields.BadCutIsRejected` | src_lib/common/log/log4cpp-1.1/src/PatternLayout.cpp:300-310 | and a cut without a digit or one that does not fit a `size_t` |
| `PatternFields.WidthsWait` | src_lib/common/log/log4cpp-1.1/src/PatternLayout.cpp:324-378 | widths in front of `%%` or `%n` wait for the next field |
| `PatternLayout.LastSegmentsIff` | src_lib/common/log/log4cpp-1.1/src/PatternLayout.cpp:78-93 | for n >= 1, `%c{n}` writes the last n dotted segments exactly if the name does not both start with a dot and have fewer than n dots |
| `PatternLayout.RunAllConcat` | src_lib/common/log/log4cpp-1.1/src/PatternLayout.cpp:394-403 | running two component vectors in a row is running their concatenation |
| `CategoryTree.ParentIsIff` | src_lib/common/log/log4cpp-1.1/src/HierarchyMaintainer.cpp:69-75 | the parent's name is what comes before the last dot, and empty exactly when there is none |
| `CategoryTree.MadeIs` | src_lib/common/log/log4cpp-1.1/src/HierarchyMaintainer.cpp:61-82 | exactly the name and its missing ancestors are added, with their initial priorities |
| `CategoryTree.AncestorsPresent` | src_lib/common/log/log4cpp-1.1/src/HierarchyMaintainer.cpp:61-82 | all ancestors of a category are present |
| `CategoryTree.ApplyAll` | src_lib/common/log/log4cpp-1.1/src/HierarchyMaintainer.cpp:61-82 | after any run every parent is present and the root's priority is below NOTSET |
| `CategoryTree.HierarchyMaintainer.GetInstance` | src_lib/common/log/log4cpp-1.1/src/HierarchyMaintainer.cpp:61-82 | the recursion adds what is missing, links every category to its parent's category and keeps the others |
| `CategoryTree.HierarchyMaintainer.Do` | src_lib/common/log/log4cpp-1.1/src/Category.cpp:71-126 | one operation does to the tree what its specification says and keeps all links |
| `CategoryTree.Replay` | src_lib/common/log/log4cpp-1.1/src/Category.cpp:71-126 | so does any run from an empty hierarchy |
| `CategoryTree.Category.AddAppender` | src_lib/common/log/log4cpp-1.1/src/Category.cpp:94-109 | the appender is added once; refused exactly for null |
| `CategoryTree.AppendersChange` | src_lib/common/log/log4cpp-1.1/src/Category.cpp:94-183 | an appender that was added is there, one that was removed is not, and all others are as before |
| `CategoryTree.Category.GetChainedPriority` | src_lib/common/log/log4cpp-1.1/src/Category.cpp:83-92 | the loop over parents terminates without leaving the tree and gives `Chained` |
| `CategoryTree.ChainedIs` | src_lib/common/log/log4cpp-1.1/src/Category.cpp:83-92 | that is the priority of the nearest of the category and its ancestors that has one, and below NOTSET |
| `CategoryTree.SetPriorityReachesBelowOnly` | src_lib/common/log/log4cpp-1.1/src/Category.cpp:71-92 | an operation on one category leaves the inherited priority of every category not below it |
| `CategoryTree.SetThenInherited` | src_lib/common/log/log4cpp-1.1/src/Category.cpp:71-92 | a priority below NOTSET is the one that the category then has; any other lets the parent's count, and the root refuses it |
| `CategoryTree.Category.CallAppenders` | src_lib/common/log/log4cpp-1.1/src/Category.cpp:220-233 | the recursion over parents makes the calls of `Delivered` |
| `CategoryTree.ReachedIs` | src_lib/common/log/log4cpp-1.1/src/Category.cpp:220-233 | the categories reached are the ancestors in order up to the first that is not additive |
| `CategoryTree.SetThenReached` | src_lib/common/log/log4cpp-1.1/src/Category.cpp:220-233 | without additivity an event stays in the category, with it the parent's are reached too |
| `CategoryTree.DeliveredIs` | src_lib/common/log/log4cpp-1.1/src/Category.cpp:220-233 | every appender is called once for each category reached that has it |
| `CategoryTree.Category.Log` | src_lib/common/log/log4cpp-1.1/src/Category.cpp:277-281 | the chain is called exactly if the inherited priority allows the message |
| `BufferedFileReader.Reader.Refill` | src_lib/common/util/src/buffered_file_reader.cpp:77-104 | a read of any size loses no byte and stays within the buffer |
| `BufferedFileReader.Reader.Scan` | src_lib/common/util/src/buffered_file_reader.cpp:108-110 | the first newline of the unread bytes, or their end |
| `BufferedFileReader.Reader.TakeLine` | src_lib/common/util/src/buffered_file_reader.cpp:110-121 | the line is returned in place, NUL-terminated, and only its newline is consumed |
| `BufferedFileReader.Reader.TakeAll` | src_lib/common/util/src/buffered_file_reader.cpp:124-131 | a full buffer or the tail is returned whole |
| `BufferedFileReader.Reader.MoveDown` | src_lib/common/util/src/buffered_file_reader.cpp:132-137 | `memmove` keeps the unread bytes |
| `BufferedFileReader.Reader.ReadLine` | src_lib/common/util/src/buffered_file_reader.cpp:70-139 | terminates for any read sizes; the chunk is free of newlines, nothing is lost or added; null comes only at the end of the file or after a read that failed; with full reads the chunk is the next line or the piece that fits |
| `BufferedFileReader.PiecesAreLinesIff` | src_lib/common/util/src/buffered_file_reader.cpp:70-139 | with full reads the chunks are the lines of the file exactly if every line leaves room for its newline in the buffer and the last one fits it |
| `BufferedFileReader.ReadAll` | src_lib/common/util/src/buffered_file_reader.cpp:70-139 | for any read sizes the chunks and consumed newlines are exactly the contents of the file, in order, unless a read failed, and then a beginning of them |
| `Base64.DigitsInverse` | src_lib/common/util/src/base64.cpp:8-22 | the two tables are inverse on all 64 values, and no digit is a special character |
| `Base64.CharsInverse` | src_lib/common/util/src/base64.cpp:8-22 | a character that decodes is the digit of its value |
| `Base64.EncodeInto` | src_lib/common/util/src/base64.cpp:26-52 | the loop writes `Encode` and a NUL behind it, and nothing further |
| `Base64.DecodeInto` | src_lib/common/util/src/base64.cpp:54-95 | the loop gives the bytes and their number, or -1 exactly when `Decode` fails |
| `Base64.EncodeLength` | src_lib/common/util/src/base64.cpp:26-52 | 4 * ceil(n / 3) characters |
| `Base64.EncodeChars` | src_lib/common/util/src/base64.cpp:26-52 | only characters that the decoder does not stop at |
| `Base64.EncodeIsCanonical` | src_lib/common/util/src/base64.cpp:26-52 | what is encoded has correct padding and zero pad bits (section 3.5 of RFC 4648) |
| `Base64.GroupIsNumber` | src_lib/common/util/src/base64.cpp:26-52 | each group is the number of its bytes in base 64, with padding for the digits that hold none of their bits (section 4 of RFC 4648) |
| `Base64.LineEndsText` | src_lib/common/util/src/base64.cpp:60-95 | a carriage return ends a text, and a plus sign and a space in front of one are read over |
| `Base64.StopsBehind` | src_lib/common/util/src/base64.cpp:88-94 | nothing is read behind a carriage return or behind padding |
| `Base64.DecodeEncodeIff` | src_lib/common/util/src/base64.cpp:26-95 | decoding what was encoded gives the bytes back exactly if there are any |
| `Base64.EncodeDecodeIff` | src_lib/common/util/src/base64.cpp:26-95 | encoding what was decoded gives the text back exactly if the text is canonical |

## Left out

TinyXML

- XmlParser.ParseNode: error texts, rows and columns and stream input are not modelled.
- XmlParser.ParseDeclaration: with assertions on, the code stops where a text ends in white space inside a declaration; here it goes on as without them.
- XmlText.GetChar: a UTF-8 sequence that the terminator cuts short ends at the terminator; the code steps past it. The same holds for stepping over a missing end mark.
- XmlText.ReadText: `condenseWhiteSpace` is true, its default.
- XmlRoundTrip.NodeRoundTrip: names, attribute names, comments, CDATA and unknown nodes that cannot be printed and read back are excluded by `Printable`; texts have the exact conditions of `RawIdentityIff` and `TrimmedIdentityIff`.
- XmlDom.Node.LinkEndChild: the error recorded in the document is not modelled.
- XmlDom.Node.RemoveChild: for a node of another parent the code also fails an assertion when assertions are on.
- XmlDom.Node.Clone: the attributes of a node are the values that the attribute ring holds, the ring itself is proved in `XmlAttributes`; user data and the document's own fields are not modelled.
- Declarations in the linked tree of `XmlDom`, handles, numeric attribute queries, files.

log4c

- LrDriver.Parser.Yyparse: the tokens are the input, the flex scanner is not modelled. Growing the parser stack always succeeds up to YYMAXDEPTH.
- LrDriver.Parser.Act: an element is handed to its parent when it is closed, where the code links it at its start tag by pointer, so nothing is said about the document of a parse that aborts.
- SdHash.Hash.LookAdd: keys are strings and compared as such; null arguments, key copies and the freeing of nodes, keys and data are not modelled.
- SdHash.Hash.Foreach: the callback deletes at most the node it is called on, once, and inserts nothing.
- `sd_hash_clear` and the default string hash.
- SdList.List.Foreach: the callback deletes at most the node it is called on, once, and inserts nothing; allocation always succeeds.
- SdStack.Stack.Push: sizes are unbounded numbers, memory always suffices. The iteration functions and `sd_stack_clear` are left out.
- SizeWin.Policy.Rollover: file operations fail only when their file is missing, which never happens in a ready window.
- SizeWin.RollingFile.Append: a message with a conversion other than `%%` has no defined outcome and is excluded; the contract is for all others.
- SizeWin.RollingFile.constructor: at least one file; an appender without a policy is not modelled. Locks are left out.

log4cpp

- RollOver.RollingFileAppender.RollOver: file operations fail only when their file is missing; the file name holds no NUL; a negative index given to the factory and the setters are not modelled.
- PatternLayout.PatternLayout.SetConversionPattern: the components that a rejected pattern leaves behind, the formats of `%d` (the time as text is part of the event) and the absolute value of the smallest `int` are not modelled; numbers are read as 32-bit `int` and 64-bit `size_t`.
- CategoryTree.Category.RemoveAppender: an appender is not deleted, and what an appender does with an event is not modelled. Locks are left out.
- Sockets, syslog, the registry, the buffering appender, configurators and factories.

Utilities

- IniFile.CIniFile.ReadFile: `ini.h` is not part of this model; `noID` is -1. The code reads the character before an empty line; here an empty line does nothing.
- The numeric and indexed setters and getters and the deletions of the INI object, and `Dump`.
- BufferedFileReader.Reader.ReadLine: one open file, whose contents do not change; opening again does not reset the indices in the code.
- URL coding, `snprintf.c`, date arithmetic, string helpers, semaphores, processes and the other utilities.
