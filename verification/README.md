# Verification of fern and libmseed components

A Dafny model of five self-contained parts of this repository, with proofs of what they promise. The
loops of the C code are methods proved against functions, and the promises are theorems about these functions.

- `bits.dfy`, `crc32c.dfy`, `crc32c_theorems.dfy`: the CRC-32C of `libmseed/crc32c.c`. The sliced, aligned
  computation equals the bytewise one, which is polynomial division; hence its error detection.
- `calendar.dfy`, `gmtime64.dfy`: the 64-bit `gmtime` of `libmseed/gmtime64.c`, against a calendar that only knows
  which day comes next.
- `options.dfy`, `unicode_escapes.dfy`, `json_strings.dfy`, `json_text.dfy`, `json_string_grammar.dfy`,
  `json_grammar.dfy`, `json_round_trip.dfy`, `json_accepted.dfy`, `json_parser.dfy`, `json_printer.dfy`: the parser and printer of `fern/cJSON.c` over a cursor and a growable
  buffer, building and walking linked items, what they make of every text of the grammar of RFC 8259 (sections 2 to 7;
  RFC 3629, section 3, for UTF-8), and their round trip.
- `json_items.dfy`, `json_trees.dfy`, `json_values.dfy`, `json_forests.dfy`, `json_duplicate.dfy`, `json_meaning.dfy`,
  `json_edits.dfy`, `json_alike.dfy`, `json_compare.dfy`, `json_laws.dfy`: sibling lists edited in place, the
  trees they make up, what trees stand for and say after an edit, duplication and comparison, and what all these
  promise together.
- `chash.dfy`: the chained hash dictionary of `fern/chash.c` as a finite map.
- `data_requests.dfy`, `time_split.dfy`, `request_chunks.dfy`, `chunk_theorems.dfy`, `request_text.dfy`,
  `line_laws.dfy`, `written_text.dfy`, `request_round_trip.dfy`, `request_accepted.dfy`: requests of `fern/datareq.c`:
  splitting by time, chunking, writing and parsing.

`dafny verify dfyconfig.toml` checks the whole project.

## How the C code is represented

- Bytes and 32-bit words are bounded naturals with exclusive or defined digit by digit; `int64_t` and `int` of the
  calendar are bounded integers with truncating division written out. Text of data requests is `string`.
- Number formatting and `strtod` are a parameter (`NumberCodec`), as are scanning and formatting of request lines
  with their dates (`LineCodec`). A dictionary may list its keys in any order. The round trip of JSON asks that
  a number is rendered in the bytes of numbers and reads back whole.
- The eight CRC tables are defined by recurrence. The host byte order and the address of the input are parameters.
- Trees of linked items are described by ghost shapes (`Tree`) and what they say by `Content`; comparing is proved
  against `Meaning`, in which arrays are sequences and objects are maps.
- The load factor test `(float) used / (float) hashsize > 0.80f` is the exact comparison `5 * used > 4 * hashsize`. For
  the listed sizes the two agree: unless they are equal, the quotient is at least 1/(5 * 3145721) away from 0.8, which
  is more than the distance of neighbouring floats there.
- `char` is signed in the hash, as on x86.
- `ceil((float) mem1 / (float) max)` and the estimated sizes are computed exactly, without rounding.

Where the code and what it seems to promise differ:

- Writing and parsing data requests gives back the same only under the condition of `WrittenTextIsReadBack`; otherwise
  a first line that mentions SERVICE is read as a URL, and a request without lines swallows the next one.
- Chunking forgets that a request was commented out unless it has no valid line (`CommentIsKept`).
- Comparing is not reflexive on objects that repeat a key (`RepeatedKeyThenCompare`), except for identical items, and items that share such an
  object are equal (`SharedElementThenCompare`).
- A buffer for `cJSON_PrintPreallocated` needs exactly one byte more than text and NUL, for every tree.
- With a chunk size of zero the quotient in the time splitter is infinite and pieces have no length; then its loop does
  not end (`SplitEnds`), so chunking requires that no line has to be split (`ChunkingEnds`).
- `prime_larger` finds nothing above the last prime of its list (`NextPrimeExists`): creating and filling a dictionary
  require that it is not needed.
- A parsed request need not have a data center (`LongerKeyIsNotPlain`), though the writer needs one.

## Model

| member | source | states |
|---|---|---|
| Crc32c.TableIsShifts | libmseed/crc32c.c:29-34 | entry `i` of table `k` is `i` after 8(k+1) shift-and-xor steps with the reversed polynomial: the eight tables compose |
| Crc32c.ByteStepIsShifts | libmseed/crc32c.c:310 | one table step is eight bit steps on the register xored with the byte |
| Crc32c.FeedIsShifts | libmseed/crc32c.c:307-313 | feeding any bytes is shifting the register, xored with the whole little-endian input, once for every input bit |
| Crc32c.FourSlicesAreShifts | libmseed/crc32c.c:350-352 | four table look-ups on a word are thirty-two bit steps, whichever four neighbouring tables are used |
| Crc32c.GenericSb1 | libmseed/crc32c.c:307-313 | the byte loop feeds exactly the bytes of its range, none if the length is not positive |
| Crc32c.GenericAlign | libmseed/crc32c.c:318-341 | the prologue feeds the bytes it skips, and stops at an aligned address if a word is left to read |
| Crc32c.Sb4Turn | libmseed/crc32c.c:349-354 | one slice-by-4 turn equals feeding four bytes one at a time |
| Crc32c.GenericSb4 | libmseed/crc32c.c:344-357 | slice-by-4 with its byte tail equals feeding the range byte by byte |
| Crc32c.Sb8Turn | libmseed/crc32c.c:365-374 | one slice-by-8 turn equals feeding eight bytes one at a time |
| Crc32c.GenericSb8 | libmseed/crc32c.c:360-376 | slice-by-8, slice-by-4 and byte tail together equal feeding the range byte by byte |
| Crc32c.MsCrc32c | libmseed/crc32c.c:379-410 | for every input, length, alignment, previous value and host byte order, the result is the same bytewise checksum; 0 for no input |
| Crc32cTheorems.CrcResumes | libmseed/crc32c.c:384-387 | the checksum of A followed by B is the checksum of B started from that of A |
| Crc32cTheorems.RegisterIsTheRemainder | libmseed/crc32c.c:25-29 | a word is the register after the input if and only if it is the remainder of the input polynomial, after the register, divided by the generator |
| Crc32cTheorems.ChecksumIsTheRemainder | libmseed/crc32c.c:379-387 | the checksum, inversions included, is the complement of the remainder of the bytes, after the complement of the previous checksum, on division by the generator written out |
| Crc32cTheorems.RegisterStepIsInjective | libmseed/crc32c.c:307-313 | for fixed bytes, different registers stay different |
| Crc32cTheorems.ByteStepReaches | libmseed/crc32c.c:310 | for a fixed byte, every register value is reached: with injectivity, the step is a bijection |
| Crc32cTheorems.FourBytesAreInjective | libmseed/crc32c.c:344-357 | for a fixed register, different inputs of at most four bytes give different registers |
| Crc32cTheorems.WindowIsDetected | libmseed/crc32c.c:384-387 | inputs that differ only in a window of at most four bytes, anywhere, never have the same checksum |
| Crc32cTheorems.BurstsAreDetected | libmseed/crc32c.c:384-387 | inputs whose difference is one burst of at most 32 bits, at any bit position, never have the same checksum |
| Crc32cTheorems.OddErrorsAreDetected | libmseed/crc32c.c:384-387 | inputs that differ in an odd number of bits never have the same checksum |
| Gmtime64.EraIsFloor | libmseed/gmtime64.c:93-95 | the truncating division with its correction is the floor, for negative days too |
| Gmtime64.YearOfEraIs | libmseed/gmtime64.c:96 | the closed-form year of era is the year of the four-century cycle in which the day lies |
| Gmtime64.CommentedRanges | libmseed/gmtime64.c:95-101 | the ranges in the comments hold for `doe`, `yoe`, `doy`, `mp`, the month and the day; day 365 only before a leap day |
| Gmtime64.CivilDateIsCorrect | libmseed/gmtime64.c:87-103 | for every integer day the closed form is a valid Gregorian date that the independent calendar counts as that day |
| Gmtime64.SplitClock | libmseed/gmtime64.c:71-81 | the borrow cascade gives the second, minute and hour of the day and the floored day, without overflow |
| Gmtime64.Weekday | libmseed/gmtime64.c:83-85 | the corrected remainder is the weekday counted from a Thursday |
| Gmtime64.DaysToCivil | libmseed/gmtime64.c:93-103 | the C expressions compute the civil date, and every intermediate fits 64 bits |
| Gmtime64.JulianDays | libmseed/gmtime64.c:44-51 | the month table is the day of the year on which the month starts, in leap years and others |
| Gmtime64.MsGmtime64R | libmseed/gmtime64.c:56-124 | for every 64-bit time: null exactly if the year offset does not fit an `int`, else the fields whose calendar day and clock count back to the time; on failure only `tm_year` is touched |
| Gmtime64.FieldsFollowTime | libmseed/gmtime64.c:71-121 | an earlier time has lexicographically earlier fields, and conversely |
| Gmtime64.FieldsAreUnique | libmseed/gmtime64.c:71-121 | a time has only one broken-down form |
| Gmtime64.OneDayLater | libmseed/gmtime64.c:71-121 | a day later: the next calendar day by the independent rule, the next weekday, the next day of the year or 0 on 1 January |
| UnicodeEscapes.ParseHex4 | fern/cJSON.c:561-594 | the value of four hexadecimal digits in either case, and 0 if any is not one |
| JsonStringGrammar.QuadIsRead | fern/cJSON.c:561-594 | four digits spelled in any mix of cases have their value |
| JsonStringGrammar.OnlyDigits | fern/cJSON.c:567-585 | the sixteen digits in either case, and no other bytes, are digits |
| UnicodeEscapes.DecodedIsScalar | fern/cJSON.c:614-659 | what is accepted is never a surrogate nor above U+10FFFF, and uses 6 bytes in the basic plane and 12 above |
| UnicodeEscapes.ReadEscape | fern/cJSON.c:608-659 | an escape is rejected exactly if it is cut off, or a lone or mismatched surrogate |
| UnicodeEscapes.Utf8IsTheEncoding | fern/cJSON.c:661-708 | the bytes written are the only well-formed UTF-8 character, by section 4 of RFC 3629, that decodes to the code point |
| UnicodeEscapes.WriteUtf8 | fern/cJSON.c:693-710 | the loop from the last byte to the first writes exactly those bytes and nothing before them |
| UnicodeEscapes.Utf16LiteralToUtf8 | fern/cJSON.c:598-716 | bytes consumed, bytes written, and nothing else touched, for good escapes and bad ones |
| JsonStrings.FindClosingQuote | fern/cJSON.c:732-763 | the first pass finds the closing quote if there is one, and counts what the estimate may discount |
| JsonStrings.UnescapeFits | fern/cJSON.c:736-820 | from a unit of the first pass or from the inside of one, what the second pass writes never exceeds the units ahead, and it stops at most one byte past the quote |
| JsonStrings.EstimateIsUpperBound | fern/cJSON.c:757-758 | for every literal, malformed escapes included, the allocation holds the output and its NUL |
| JsonStrings.UnescapeStep | fern/cJSON.c:767-819 | one turn of the second loop writes one unit and never at the last byte of the allocation |
| JsonStrings.UnescapeInto | fern/cJSON.c:765-820 | the second loop writes the unescaped bytes, or stops at the first bad escape, inside the allocation |
| JsonStrings.ParseString | fern/cJSON.c:719-845 | both passes together: the C string of the literal and the offset after its quote, or the offset of the error |
| JsonStrings.CountIsExact | fern/cJSON.c:875-899 | the counting pass predicts exactly how many bytes the writing pass produces, and no escapes means a plain copy |
| JsonStringGrammar.StringIsRead | fern/cJSON.c:719-845 | every string literal of the grammar, with any escapes in any case, is read as the C string of its characters up to its closing quote |
| JsonStringGrammar.EscapedCharacterIsRead | fern/cJSON.c:670-716 | a character escaped in four digits is read as the UTF-8 form that decodes to it |
| JsonStringGrammar.EscapedPairIsRead | fern/cJSON.c:622-716 | and so is one escaped as a surrogate pair |
| JsonStringGrammar.OtherEscapeIsRejected | fern/cJSON.c:787-815 | a backslash before anything but the eight letters and `u` is an error at the backslash |
| JsonStringGrammar.LiteralIsSpelled | fern/cJSON.c:848-967 | the printed form of a C string is a literal of the grammar, with the short escape where there is one and four lower-case digits for other control characters |
| JsonStringGrammar.LiteralParses | fern/cJSON.c:848-967 | the printed form of every NUL-free byte string is read back as that string, and exactly its bytes are consumed |
| JsonGrammar.NumbersAreRead | fern/cJSON.c:284-358 | every number of RFC 8259 of at most 63 bytes is read whole, whatever follows that is not part of a number |
| JsonGrammar.PaddedValueIsRead | fern/cJSON.c:984-1002 | white space before and after a value is skipped |
| JsonGrammar.ElementsAreRead | fern/cJSON.c:1394-1442 | elements with commas, white space and closing bracket are read in order, or fail, as the nesting limit decides |
| JsonGrammar.EntriesAreRead | fern/cJSON.c:1548-1612 | members with keys, colons, commas, white space and closing brace are read in order, or fail, as the nesting limit decides |
| JsonGrammar.ValueIsRead | fern/cJSON.c:1233-1285 | every spelling of a value, whatever its white space, escapes and numbers, is read as the value and exactly its bytes are used, if and only if the nesting limit allows |
| JsonGrammar.TextIsRead | fern/cJSON.c:1021-1098 | every JSON text is read as its value, to its end if that is required, if and only if it is nested at most 1000 deep |
| JsonRoundTrip.PrintedIsSpelled | fern/cJSON.c:1288-1738 | the printed text is a JSON text that spells the tree: without white space, or with a space between elements and members on lines of their own, indented by tabs |
| JsonRoundTrip.ValueReadsBack | fern/cJSON.c:1233-1738 | a printed value standing anywhere in a buffer is read back exactly if the nesting limit allows it there |
| JsonRoundTrip.PrintedTextParses | fern/cJSON.c:1021-1098 | formatted or not, the text of a whole tree parses to the tree and to its end if and only if it is nested at most 1000 deep |
| JsonParser.ParseBuffer.SkipWhitespace | fern/cJSON.c:984-1002 | the cursor stops at the first byte above 32 or at the terminating NUL |
| JsonParser.ParseBuffer.NumberBytes | fern/cJSON.c:297-330 | at most 63 number bytes are copied |
| JsonItems.AsInt | fern/cJSON.c:340-352 | the number cut off toward zero, or the nearest bound of `int` if it is outside |
| JsonParser.ParseBuffer.ParseNumber | fern/cJSON.c:284-358 | the cursor advances by what `strtod` used and the item is that number with its integer copy, or the cursor stays |
| JsonParser.ParseBuffer.ParseString | fern/cJSON.c:719-845 | the cursor after the literal and its C string in the item, or the cursor at the error and the item as it was |
| JsonParser.ParseBuffer.ParsePlain | fern/cJSON.c:1240-1270 | words, strings and numbers: what the parsing function gives, in an item without children whose integer is 1 for true, the copy of a number, and else 0 |
| JsonParser.ParseBuffer.ParseValue | fern/cJSON.c:1233-1285 | a well-linked tree of new items below the given one that stands for the value of the parsing function, with the same end and the nesting restored; or the same error offset |
| JsonForests.Link | fern/cJSON.c:1397-1418 | a new item is put at the end of a sibling list, or starts it |
| JsonForests.LinkNext | fern/cJSON.c:1397-1418 | the trees already in the list stay linked and say what they said |
| JsonForests.Grows | fern/cJSON.c:1405-1427 | once its value has been parsed, the linked item and its tree extend the list of trees |
| JsonForests.Become | fern/cJSON.c:1436-1440 | the list hangs under the item, and the whole is one well-linked tree that says what its parts say |
| JsonParser.ParseBuffer.ParseElement | fern/cJSON.c:1397-1426 | a new item is linked before its value is parsed; the list then has one more tree |
| JsonParser.ParseBuffer.NextElement | fern/cJSON.c:1396-1429 | one turn of the do-while loop keeps what has been read and what is to come together the whole |
| JsonParser.ParseBuffer.ParseElements | fern/cJSON.c:1394-1442 | the do-while loop builds a linked list of trees for the elements the recursive function gives, with the same errors |
| JsonParser.ParseBuffer.ParseArray | fern/cJSON.c:1362-1453 | depth limit, empty array, elements and closing bracket as in the parsing function, and the list under the item |
| JsonParser.ParseBuffer.ParseKey | fern/cJSON.c:1574-1586 | the C string of the literal becomes the key, and the item has no string of its own |
| JsonParser.ParseBuffer.ParseMember | fern/cJSON.c:1552-1597 | a new item is linked before key, colon and value are parsed, with the offset of each possible error |
| JsonParser.ParseBuffer.NextMember | fern/cJSON.c:1550-1600 | one turn of the do-while loop keeps what has been read and what is to come together the whole |
| JsonParser.ParseBuffer.ParseMembers | fern/cJSON.c:1548-1612 | the do-while loop builds a linked list of trees with keys for the members the recursive function gives, with the same errors |
| JsonParser.ParseBuffer.ParseObject | fern/cJSON.c:1518-1624 | depth limit, empty object, members and closing brace as in the parsing function, and the list under the item |
| JsonParser.ParseBuffer.SkipUtf8Bom | fern/cJSON.c:1005-1018 | three bytes are skipped only if they are a byte order mark with two more bytes after it |
| JsonParser.ParseWithOpts | fern/cJSON.c:1021-1098 | a well-linked tree of new items that stands for the parsed value and the end of reading, or no tree and an error position inside the text |
| JsonLaws.PrintThenParse | fern/cJSON.c:1021-2974 | printing a linked tree and parsing the text gives a tree of new items exactly if the text fits and is nested at most 1000 deep; it stands for the same value, and compares equal to the original exactly if the original is consistent |
| JsonAccepted.AcceptedValue | fern/cJSON.c:1233-1624 | whatever the text, an accepted value has C strings only and is nested within the limit |
| JsonAccepted.AcceptedTextIsStable | fern/cJSON.c:1021-1098 | for every text that is accepted, printing the value and parsing again gives the same value, if the numbers that are read read back |
| JsonPrinter.PrintBuffer.constructor | fern/cJSON.c:1112-1122 | a fresh buffer holds no text |
| JsonPrinter.PrintBuffer.Ensure | fern/cJSON.c:394-479 | succeeds exactly if the text, the bytes and one more fit the limit; the text survives every reallocation |
| JsonPrinter.PrintBuffer.Emit | fern/cJSON.c:1469-1476 | a fixed piece of text is appended after making room for it |
| JsonPrinter.PrintBuffer.UpdateOffset | fern/cJSON.c:482-492 | the offset catches up with the end of the text |
| JsonPrinter.TextHasNoNul | fern/cJSON.c:482-492 | no printed tree has a NUL inside, so the search for one finds the end |
| JsonPrinter.PrintBuffer.CountEscapes | fern/cJSON.c:875-899 | the length of the C string and the additional characters its escapes need |
| JsonPrinter.PrintBuffer.WriteEscaped | fern/cJSON.c:918-962 | the writing loop appends the escaped bytes and ends where the count said |
| JsonPrinter.PrintBuffer.PrintStringPtr | fern/cJSON.c:848-967 | the quoted, escaped literal is appended exactly if it, its NUL and one byte fit |
| JsonPrinter.PrintBuffer.PrintNumber | fern/cJSON.c:495-558 | a number is appended exactly if it is shorter than the stack buffer and fits |
| JsonPrinter.PrintBuffer.PrintValue | fern/cJSON.c:1288-1359 | succeeds exactly if every number is short and text, NUL and one byte fit; then the buffer holds the old text and the printed value, and the depth is as before |
| JsonPrinter.PrintBuffer.PrintElements | fern/cJSON.c:1479-1503 | the loop over elements appends them with separators |
| JsonPrinter.PrintBuffer.PrintArray | fern/cJSON.c:1456-1515 | brackets, elements and separators, or failure exactly as for a value |
| JsonPrinter.PrintBuffer.PrintKey | fern/cJSON.c:1652-1689 | indentation, key and colon |
| JsonPrinter.PrintBuffer.PrintMember | fern/cJSON.c:1652-1715 | one member with comma and line end |
| JsonPrinter.PrintBuffer.PrintMembers | fern/cJSON.c:1650-1718 | the loop over members appends them all |
| JsonPrinter.PrintBuffer.PrintObject | fern/cJSON.c:1627-1738 | braces, members and indentation, or failure exactly as for a value |
| JsonPrinter.Print | fern/cJSON.c:1108-1170 | an allocation of exactly the text and its NUL, or none exactly if a number is too long or the text passes the limit |
| JsonPrinter.PrintBuffered | fern/cJSON.c:1183-1211 | for every starting size, 0 included, the same text as the plain printer, and failure in the same cases |
| JsonPrinter.PrintPreallocated | fern/cJSON.c:1213-1230 | succeeds exactly if the caller's buffer has one byte more than text and NUL need |
| JsonItems.GetArrayItem | fern/cJSON.c:1764-1781 | the child at the index, or null past the end |
| JsonItems.SuffixObject | fern/cJSON.c:1841-1845 | two items linked both ways |
| JsonItems.AddItemToArray | fern/cJSON.c:1869-1896 | a detached item becomes the last child, and the list stays well formed |
| JsonItems.InsertItemInArray | fern/cJSON.c:2166-2193 | a detached item is put before the given place, or at the end if the place is past it; nothing happens for a negative place |
| JsonItems.InsertBefore | fern/cJSON.c:2182-2192 | the pointer assignments insert into the sequence of children |
| JsonItems.Unlink | fern/cJSON.c:2103-2121 | the pointer assignments remove from the sequence of children and detach the item |
| JsonItems.DetachItemViaPointer | fern/cJSON.c:2096-2124 | the item leaves the sequence and points nowhere |
| JsonItems.DetachItemFromArray | fern/cJSON.c:2126-2134 | the child at the index is removed and returned, or nothing changes |
| JsonItems.Relink | fern/cJSON.c:2207-2223 | the pointer assignments exchange one child and detach the old one |
| JsonItems.ReplaceItemViaPointer | fern/cJSON.c:2195-2228 | exactly one place of the sequence changes |
| JsonEdits.Add | fern/cJSON.c:1869-1896 | the tree of a detached item becomes the last child: the whole stays one linked tree and says one more child |
| JsonEdits.Insert | fern/cJSON.c:2166-2193 | the tree of a detached item becomes the child at the place, the other children in order around it; nothing changes for a negative place |
| JsonEdits.Detach | fern/cJSON.c:2096-2124 | the tree says one child less, and that child is a linked tree of its own that says what it said |
| JsonEdits.Replace | fern/cJSON.c:2195-2228 | the tree says another child in one place, and the old child is a linked tree of its own; nothing changes if the child is to replace itself |
| JsonDuplicate.CopyFields | fern/cJSON.c:2587-2612 | a new item with the same type, values and key, integer included, and no links |
| JsonDuplicate.Append | fern/cJSON.c:2627-2639 | a copy is linked to the end of the new list, and trees already copied stay linked |
| JsonDuplicate.CopyNext | fern/cJSON.c:2620-2641 | one turn of the walk adds one duplicated child |
| JsonDuplicate.DuplicateChildren | fern/cJSON.c:2618-2641 | the walk duplicates all children in order |
| JsonDuplicate.Duplicate | fern/cJSON.c:2575-2652 | a well-linked tree of new items only, that says the same as the original at every node, or the root alone if it does not recurse |
| JsonCompare.CaseInsensitiveStrcmp | fern/cJSON.c:107-128 | 0 exactly if the strings agree once lowered, else negative or positive as the lowered strings are ordered |
| JsonMeaning.SameKey | fern/cJSON.c:107-128 | without regard to case, two names are one key if and only if they differ in the case of letters at most |
| JsonCompare.GetObjectItem | fern/cJSON.c:1793-1823 | the first member whose key matches in the chosen case mode, or null |
| JsonCompare.CompareElements | fern/cJSON.c:2909-2931 | one walk over both arrays decides whether they are alike, element by element |
| JsonCompare.FoundIn | fern/cJSON.c:2937-2950 | one walk holds exactly if every member is alike the first of its key in the other object |
| JsonCompare.CompareMembers | fern/cJSON.c:2933-2969 | the two walks decide whether two objects are alike |
| JsonValues.StandsForOne | fern/cJSON.c:2851-2974 | the links decide the tree: an item is the root of one only |
| JsonAlike.KidsAreNested | fern/cJSON.c:2851-2974 | no child of an item is a child of one below it, so comparing the two never meets the shortcut |
| JsonAlike.AlikeIsSymmetric | fern/cJSON.c:2851-2974 | what is compared as equal does not depend on the order of the two trees |
| JsonAlike.AlikeIsTransitive | fern/cJSON.c:2851-2974 | nor on a third tree in between, whatever items the three share |
| JsonAlike.SameIsAlike | fern/cJSON.c:2851-2974 | consistent trees of the same meaning, arrays in order and objects as maps, are compared as equal |
| JsonAlike.AlikeMeansSame | fern/cJSON.c:2851-2974 | what is compared as equal has the same meaning, and both are consistent or neither is |
| JsonAlike.AlikeIsSame | fern/cJSON.c:2851-2974 | unless different items share children, what is compared as equal is identical or consistent and of the same meaning |
| JsonAlike.SharedElement | fern/cJSON.c:2875-2880 | two arrays that share their element are alike, and the same exactly if the element is consistent |
| JsonCompare.Compare | fern/cJSON.c:2851-2974 | on all linked trees: the same trees are equal and equal trees have the same meaning; without shared children, true exactly for identical items and for consistent trees of the same meaning, arrays in order and objects as maps |
| JsonLaws.DuplicateThenCompare | fern/cJSON.c:2575-2974 | a recursive duplicate is a tree of new items that compares equal to its original exactly if the original is consistent, so always if keys are distinct |
| JsonMeaning.ArraysAreTheSame | fern/cJSON.c:2909-2931 | pairwise comparison of elements decides equality of meaning |
| JsonMeaning.ObjectsAreTheSame | fern/cJSON.c:2933-2969 | the two passes over members decide equality of the objects as maps |
| JsonMeaning.DistinctIsConsistent | fern/cJSON.c:2933-2969 | trees whose objects have distinct keys are consistent |
| JsonLaws.CompareThree | fern/cJSON.c:2851-2974 | the answers for any three trees are reflexive, symmetric and transitive |
| JsonLaws.SharedElementThenCompare | fern/cJSON.c:2875-2880 | two arrays that share one element are found equal, though they are not the same if it repeats a key for different values |
| JsonLaws.RepeatedKeyThenCompare | fern/cJSON.c:2575-2974 | an object with one key twice, for null and true, is not found equal to its duplicate |
| ChainedHash.PrimeLarger | fern/chash.c:61-68 | the smallest listed size above the argument |
| ChainedHash.NextPrimeExists | fern/chash.c:61-68 | there is a larger listed size exactly below the last one |
| ChainedHash.NextPrimeIs | fern/chash.c:52-68 | the next listed size, number by number |
| ChainedHash.NextPrimeIsApart | fern/chash.c:17-20 | the next size is at least two larger, so one resize always suffices |
| ChainedHash.Dict.WithLength | fern/chash.c:120-131 | an empty dictionary of the next listed size |
| ChainedHash.Dict.Hash | fern/chash.c:82-88 | the 32-bit polynomial hash of sign-extended bytes, modulo the table size |
| ChainedHash.HashIsPolynomial | fern/chash.c:82-88 | the hash is the polynomial of the signed bytes in base 31, modulo 2^32 |
| ChainedHash.Dict.GetInternal | fern/chash.c:292-301 | the entry of a key exactly if the map has the key |
| ChainedHash.Dict.Get | fern/chash.c:333-344 | the value of the map |
| ChainedHash.Dict.Push | fern/chash.c:367-371 | a new entry at the head of its chain extends the map |
| ChainedHash.PushStands | fern/chash.c:367-371 | the chains with a new head stand for the updated map |
| ChainedHash.Dict.Put | fern/chash.c:362-386 | the map is updated; the table is resized exactly if more than four fifths are used; without data the result is 0, an existing entry is unchanged, and after a new key the invariant holds exactly if there was one use more than keys |
| ChainedHash.Dict.Reinsert | fern/chash.c:265-274 | a chain is put into the new table without another resize |
| ChainedHash.Dict.Rebuild | fern/chash.c:260-276 | the new table stands for the same map |
| ChainedHash.Dict.Resize | fern/chash.c:253-276 | same map, next size, and `used` is then the number of keys |
| ChainedHash.FlatNames | fern/chash.c:402-420 | the entries of all buckets have the keys of the map as names, each once |
| ChainedHash.FlatItems | fern/chash.c:260-276 | the entries of all buckets spell out the map |
| ChainedHash.RemoveStands | fern/chash.c:227-234 | the chains without one entry stand for the map without its key |
| ChainedHash.Dict.FindWithLast | fern/chash.c:220-225 | the walk finds the entry and the one before it, exactly if the key is there |
| ChainedHash.Dict.Unlink | fern/chash.c:229-234 | one entry leaves its chain, all others stay |
| ChainedHash.Dict.Remove | fern/chash.c:212-240 | the key leaves the map and `used` is not counted down |
| ChainedHash.Dict.Keys | fern/chash.c:402-420 | every key exactly once, then the closing null, within `used + 1` slots |
| DataRequests.ParseLine | fern/datareq.c:1204-1232 | a valid line has its start not after its end, nanoseconds included, and spans at most 366 days |
| DataRequests.ValidLines | fern/datareq.c:1204-1232 | a line is valid if and only if it can be scanned, does not end before it starts, and spans at most 31622400 seconds |
| DataRequests.LineSizeIs | fern/datareq.c:457-485 | the estimated size of a line in whole bytes, band letter by band letter |
| DataRequests.BreqFastLine.Parse | fern/datareq.c:1204-1232 | the fields of a valid line, and failure exactly for the others |
| DataRequests.ListKeys | fern/chash.c:403-420 | every key of the dictionary once, in some order |
| DataRequests.PutAllJoins | fern/datareq.c:678-681 | putting the keys one by one, in any order and over any entries there before, joins the dictionaries |
| DataRequests.BreqFast.CopyUrls | fern/datareq.c:672-684 | the loop over the listed keys leaves every key of either request, with the value of the source where it has one, and changes nothing else |
| TimeSplit.SplitByTime | fern/datareq.c:721-745 | the loop produces the pieces, each a request with the source's URLs and one formatted line |
| TimeSplit.SplitEnds | fern/datareq.c:728-743 | the loop gets to the end of the line exactly if the chunk size is positive |
| TimeSplit.PiecesCover | fern/datareq.c:729-743 | pieces start at the start, abut, are equally long, reach the end and overshoot it by less than one piece; at most as many as wanted |
| TimeSplit.PieceSize | fern/datareq.c:722-745 | each piece is estimated below the limit plus four bytes for one second of samples and one sample |
| RequestChunks.Close | fern/datareq.c:747-754 | a request with lines is closed and a new one opened with the same URLs |
| RequestChunks.SplitLine | fern/datareq.c:1003-1008 | an oversized line closes the open request and is replaced by its pieces |
| RequestChunks.AddLine | fern/datareq.c:1009-1017 | any other line joins the open request, which is closed once it is above the limit |
| RequestChunks.ChunksOf | fern/datareq.c:992-1021 | the chunks of one request by the greedy rule |
| ChunkTheorems.ChunkingEnds | fern/datareq.c:979-1026 | the condition of chunking, a positive chunk size or no line to split, says exactly that every split gets to its end |
| RequestChunks.Chunks | fern/datareq.c:979-1026 | all requests are replaced by their chunks, in order, whenever chunking ends |
| ChunkTheorems.ChunkLinesConserve | fern/datareq.c:996-1018 | from any state of the inner loop, the lines still to come out are the open ones and the replaced rest |
| ChunkTheorems.ChunkingConservesLines | fern/datareq.c:979-1026 | the output lines in order are the input lines, invalid ones dropped and oversized ones replaced in place by their pieces |
| ChunkTheorems.ChunkLinesAreGood | fern/datareq.c:996-1021 | every chunk of a request is a good one, from any state of the inner loop |
| ChunkTheorems.ChunksAreGood | fern/datareq.c:979-1026 | every chunk has lines and the URLs of one request, and is a time piece or valid lines of at most twice the limit |
| ChunkTheorems.ChunksHaveBytes | fern/datareq.c:979-1026 | counted in whole bytes by band letter, every chunk that is not a time piece has at most twice the limit |
| ChunkTheorems.NothingIsChunked | fern/datareq.c:989-1022 | chunking gives nothing exactly if no line is open and none to come is valid |
| ChunkTheorems.CommentIsKept | fern/datareq.c:985-1025 | every chunk has the comment flag of its request if and only if the request is not commented out or has no valid line |
| ChunkTheorems.CommentIsLost | fern/datareq.c:985-1025 | one valid line that is commented out comes out, replaced like any other, in requests that are not commented out |
| RequestText.Perform | fern/datareq.c:869-890 | the action on a line, by state, changes only what the state says |
| RequestText.TakeLine | fern/datareq.c:839-891 | one line: comment mark, next state and action |
| RequestText.Parse | fern/datareq.c:826-897 | the parsed parameters and requests, or null exactly if there is no request |
| RequestText.WriteEntries | fern/datareq.c:1067-1070 | one line for every key |
| RequestText.WriteUrls | fern/datareq.c:1081-1089 | one line for every key but the data center |
| RequestText.WriteBody | fern/datareq.c:1077-1095 | data center, other URLs, lines and a blank line, with the comment mark |
| RequestText.WriteNext | fern/datareq.c:1075-1096 | header, data center, URLs in the order listed, lines and blank line of one more request |
| RequestText.Write | fern/datareq.c:1060-1097 | the whole document, every line with its newline, in an order of keys that every dictionary chooses for itself |
| WrittenText.DecimalIsRead | fern/datareq.c:1076 | numbers are written in digits that spell them, without leading zeros |
| WrittenText.HeadersDiffer | fern/datareq.c:1076 | a header determines the number of its request and how many there are |
| WrittenText.RequestStands | fern/datareq.c:1074-1096 | every request stands in the document in its turn, after its header |
| WrittenText.BodyIs | fern/datareq.c:1077-1095 | the data center first, then keys and values, then the lines, then a blank line |
| WrittenText.CommentedBodyIs | fern/datareq.c:1028-1028 | a request that is commented out is written the same, with a number sign and a space before every line but the blank one |
| WrittenText.ParametersAre | fern/datareq.c:1064-1073 | a title, keys and values, and a blank line |
| LineLaws.StripIs | fern/datareq.c:1118-1128 | white space around a text is removed, and nothing else |
| LineLaws.EntryIs | fern/datareq.c:1118-1128 | white space around keys and values does not matter |
| LineLaws.ContainsIs | fern/datareq.c:852 | a keyword is found exactly if it stands somewhere in the line |
| LineLaws.CommentIs | fern/datareq.c:839-850 | a number sign and any number of spaces are taken off, and a second number sign skips the line |
| LineLaws.TrailingSpaceIsIgnored | fern/datareq.c:839-891 | white space at the end of a line, the carriage return of another system included, changes nothing |
| RequestRoundTrip.EntryIsRead | fern/datareq.c:1117-1128 | a clean key and value are read back from their line |
| RequestRoundTrip.SplitTerminated | fern/datareq.c:839 | splitting at newlines gives the lines back and one empty line |
| RequestRoundTrip.ParametersBlockIsRead | fern/datareq.c:1065-1073 | the parameters are read back whatever the order of keys |
| RequestRoundTrip.BodyIsRead | fern/datareq.c:1074-1096 | a request that keeps its first line is read back, and the parser is ready for the next |
| RequestRoundTrip.BadBodyIsNotRead | fern/datareq.c:864-890 | a request whose first line is taken for a URL loses it; one without lines leaves the parser not ready |
| RequestRoundTrip.BodyIsSwallowed | fern/datareq.c:866-868 | a parser that is not ready takes a whole request for lines of the one before |
| RequestRoundTrip.RequestsStayAstray | fern/datareq.c:839-891 | once astray, the parser never returns the same requests |
| RequestRoundTrip.WrittenTextIsReadBack | fern/datareq.c:827-1097 | for sound requests and any order of keys in each of them, the text is read back as the same parameters and requests if and only if every request keeps its first line, except that the last may have none |
| RequestRoundTrip.WriteThenParse | fern/datareq.c:827-1097 | writing and then parsing gives new requests equal to those written exactly under that condition |
| RequestRoundTrip.EmptyRequestSwallows | fern/datareq.c:860-880 | of two requests without lines the first swallows the second: an input that is not read back, whatever lines are valid |
| RequestRoundTrip.ServiceStationIsLost | fern/datareq.c:860-880 | a valid first line for a station called SERVICE is an input that is not read back |
| RequestAccepted.TextIsAccepted | fern/datareq.c:827-897 | whatever the text, accepted entries are clean and accepted lines valid, and the requests are sound exactly if their entries are plain |
| RequestAccepted.AcceptedTextIsStable | fern/datareq.c:827-1097 | accepted requests with plain entries, written and parsed again, are the same exactly if every request keeps its first line, except that the last may have none |
| RequestAccepted.LongerKeyIsNotPlain | fern/datareq.c:853-865 | a line with a key that only starts with DATACENTER opens a request without data center |

## Left out

- JsonParser.ParseBuffer.ParseArray: what a failed parse has built is not deleted, only dropped; the same holds for objects and for the root.
- Allocation failure, the allocator hooks and the copying variant of reallocation, which keeps the bytes up to the offset.
- Raw JSON items, items of invalid type, reference and constant-string flags, and NaN and infinities, which a `real` does not have.
- JsonPrinter.PrintBuffered: an allocation of 0 bytes is supposed to succeed, as it may in C.
- Locale-dependent decimal points, and the global error record of `cJSON_GetErrorPtr` beyond its position.
- Null strings: items of string type have a string, and members of objects have a key.
- RequestAccepted.AcceptedTextIsStable: says nothing of accepted requests whose entries are not plain.
- TimeSplit.SplitByTime: for a positive chunk size, without which its loop does not end.
- JsonItems.ReplaceItemViaPointer: stops before the replaced item is released.
- `cJSON_Minify`, item creation and the remaining wrappers around the modelled functions.
- ChainedHash.Dict.Put: data are an optional value; a new entry that is put without data keeps unspecified data.
- `dict_resize_limit`: the load limit is the default one; `dict_free`, `dict_status` and freeing of data are left out.
- Equality of the literal CRC table with the recurrence that defines it.
- RequestRoundTrip.WrittenTextIsReadBack: for keys and values without surrounding white space or newlines, keys without `=` or a leading `#`, parameters that do not start with DATACENTER, URLs that mention SERVICE, and valid lines that do not start with `#`; terminals are left out.
- Data requests copy URLs between finite maps, not between hash tables; downloading, sending and dates are left out.
- TimeSplit.PieceSize: in exact arithmetic; the code divides in single precision.
- `breq_fast_size`, which chunking does not use.
