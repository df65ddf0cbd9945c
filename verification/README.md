# Verified models of linglong's JSON, digest and code-generation cores

This project models, in Dafny, the algorithms of the linglong repository that carry the most state and the
most case distinctions, and proves what they compute.

* **cJSON** (`external/http/external/cJSON.c`). `Grammar` says which texts belong to the language the parser
  reads and what they mean; `Parsing` is the recursive-descent parser as a function; `ParseBuffer.dfy` is the
  parser as it runs, with its offset, its depth and its two-pass string decoder. `Rendering` says what text a
  tree prints to; `PrintBuffer.dfy` is the printer as it runs, on a growing or a fixed buffer. `Minifying`
  and `MinifyBuffer.dfy` are the same pair for `cJSON_Minify`, and `StringSyntax` and `NumberSyntax` are the
  syntax of string literals and of numbers. `Standard` is JSON as RFC 8259 defines it, with the tables of
  `Characters`; its definitions name no function of the parser or the printer. `Comparing` says what comparing
  two trees amounts to, and `ItemComparing`, `ChildChain.dfy` and `Duplicating` cover comparing, editing and
  copying linked items on the heap.
* **SHA-256** (`apps/uab/header/src/sha256.h`) and the loop that feeds it from a file
  (`apps/uab/header/src/main.cpp`). `Sha256` is the definition of FIPS 180-4 on whole messages, `Sha256Words`
  says what its functions and constants are, and `Sha256Example` follows one message through it;
  `Sha256Stream.dfy` is the incremental class; `DigestLoop.dfy` is the read loop.
* **Three smaller cores**: `strReplace`, the argument names and namespaces of the D-Bus code generator, and
  the OCI mount options, with `MountNames` for what the options mean by their names.

The main results:

* The parser accepts, to the end of the text, exactly the grammar's texts nested at most 1000 deep, and
  returns their meaning (`Acceptance.Accepts`). When the end is not asked for it reads exactly a start of the
  text that belongs to the grammar, with the longest number (`Acceptance.AcceptsPrefix`). The code refines
  both and reports positions inside the text (`ParseBuffers.ParseWithOpts`). A text of RFC 8259 whose numbers
  have at most 63 characters and whose surrogate escapes are paired is read with the value it denotes exactly
  when it is nested at most 1000 deep (`Standard.ReadsStandard`).
* Printing and parsing are inverse exactly up to that depth (`Rendering.RoundTrip`, and
  `RoundTrips.PrintAndParse` for the code). What is printed is a text of RFC 8259 that denotes the tree
  (`StandardPrinting.PrintsStandard`), and no string can be written shorter than the printer writes it
  (`StandardPrinting.EscapeShortest`).
* A string literal is read exactly as its syntax says: the first pass ends it at the first bare quote, and the
  second pass decodes it to what its parts mean (`StringSyntax.BodyIff`). The second pass never writes past
  what the first pass allocated, although the passes can disagree on where escapes start
  (`Strings.DecodeFits`, `ParseBuffers.ParseBuffer.Unescape`, and `StringSyntax.SwallowedQuote` for a literal
  on which they do).
* Printing into a caller's buffer succeeds exactly when the text and two more bytes fit. The header asks for
  five spare bytes because the estimate may be inexact (`external/http/external/cJSON.h:152`); it is exact.
* Minifying stays inside the text exactly when every string literal and every block comment is closed
  (`MinifyBuffers.MinifyInPlace`). A second time it changes nothing exactly when no kept slash comes to stand
  in front of a slash or a star (`Minifying.IdempotentIff`; `/ /` is a text on which it does). It keeps the
  meaning of every text that parses and turns formatted into unformatted text.
* On the items of one heap comparing is an equivalence (`ItemComparing.ComparesAsEquivalence`). Trees without
  a common item are equal exactly when both are sound and mean the same, whatever flags their items have
  (`ItemComparing.ApartCompare`); a tree is sound when for each member of an object the first member of its
  name is not hidden and means the same. A copy is equal to its source exactly when the source without its
  reference flags is sound (`ItemComparing.CopyCompares`). Common items change the answer only where they are
  not sound (`ItemComparing.ComparesExactly`).
* The incremental hash equals FIPS 180-4 under every chunking. Its functions are described bit by bit, its
  constants by the roots of primes (`Sha256Words`), and the digest of `abc` is computed as far as its bytes
  (`Sha256Example.AbcDigest`).
* The file loop hashes its slice under every schedule of reads exactly when the file holds the slice, the slice
  is not empty, and it is at least 4096 bytes long or ends the file (`DigestLoops.HashesExactly`). For every
  other slice of every file some schedule makes it return the digits of an all-zero digest. An error is reported
  exactly when a read fails while the loop is waiting for it (`DigestLoops.FailureIff`).
* Each mount flag ends set exactly when the last option that concerns it, by name, is one that sets it
  (`MountNames.FlagByName`), and the parameter list of a generated method is read back as its declarations
  (`ArgNames.Declared`).

Modelling conventions. Bytes are integers below 256 in the JSON modules and bit-vectors in the hash. JSON
numbers are real numbers, and `strtod` is a function on the number's characters; printing is modelled for
integers of at most 15 digits, which `%1.15g` prints in full. Allocation failure of the printer, of
copying and of `strReplace` is a free choice that a ghost flag records, so each contract says when it is the
only way to fail; the parser's allocations do not fail in the model. What is left of a text is a list of bytes
(`Octets.Input`) in the specifications and a position in the buffer in the code.

`dafny verify dfyconfig.toml` checks the whole project.

## Model

| member | source | states |
|---|---|---|
| `Acceptance.Accepts` | external/http/external/cJSON.c:1000-1077 | a text is accepted to its end with value v if and only if it is a text of the grammar that means v and v is nested at most 1000 deep |
| `Acceptance.AcceptsPrefix` | external/http/external/cJSON.c:1000-1083 | when the end is not asked for, the value and the rest are v and rest if and only if the text is a grammar text that means v, cut off at its last byte with the longest number, followed by rest |
| `Acceptance.DocumentComplete` | external/http/external/cJSON.c:1000-1077 | every grammar text nested at most 1000 deep is parsed to its meaning |
| `Acceptance.DocumentSound` | external/http/external/cJSON.c:1000-1077 | every accepted text has a syntax tree with that text and that meaning |
| `Acceptance.ValueComplete` | external/http/external/cJSON.c:1212-1264 | a value's text in front of any continuation is read to its meaning and leaves exactly the continuation |
| `Acceptance.ValueSound` | external/http/external/cJSON.c:1212-1264 | what parse_value accepts is the text of a valid syntax tree followed by the reported rest |
| `Acceptance.ElementsComplete` | external/http/external/cJSON.c:1376-1408 | the element loop reads all elements, separators and blanks included, in order |
| `Acceptance.PairsComplete` | external/http/external/cJSON.c:1530-1580 | the member loop reads all keys and values in order |
| `ParseBuffers.ParseWithOpts` | external/http/external/cJSON.c:1000-1077 | the running parser returns the specified value and end position, or fails with an error position that is not behind the terminator |
| `ParseBuffers.ParseBuffer.ParseValue` | external/http/external/cJSON.c:1212-1264 | result, new offset and restored depth agree with the parsing function; all reads are inside the buffer and the recursion terminates |
| `ParseBuffers.ParseBuffer.ParseArray` | external/http/external/cJSON.c:1341-1432 | the same for arrays, with the nesting limit |
| `ParseBuffers.ParseBuffer.ParseElements` | external/http/external/cJSON.c:1376-1413 | the do-while loop collects exactly the elements of the specification |
| `ParseBuffers.ParseBuffer.ParseObject` | external/http/external/cJSON.c:1497-1603 | the same for objects, with the nesting limit |
| `ParseBuffers.ParseBuffer.ParsePairs` | external/http/external/cJSON.c:1530-1585 | the do-while loop collects exactly the members of the specification |
| `ParseBuffers.ParseBuffer.ParseNumber` | external/http/external/cJSON.c:266-340 | at most 63 number characters are handed to strtod, and the offset moves over what it used |
| `ParseBuffers.ParseBuffer.ParseString` | external/http/external/cJSON.c:698-824 | the decoded string and the new offset, or the position of the first malformed escape |
| `ParseBuffers.ParseBuffer.FindEnd` | external/http/external/cJSON.c:711-733 | the first pass finds the closing quote and counts the bytes the output needs |
| `ParseBuffers.ParseBuffer.Unescape` | external/http/external/cJSON.c:736-804 | the second pass writes the decoded bytes and a terminator inside the allocated buffer, also when the passes disagree |
| `ParseBuffers.ReadLiteral` | external/http/external/cJSON.c:577-638 | code point and length of an escape or surrogate pair, zero length when it is malformed |
| `ParseBuffers.EncodeUtf8` | external/http/external/cJSON.c:640-695 | the bytes written last to first are the UTF-8 encoding of RFC 3629 |
| `ParseBuffers.ParseHex4` | external/http/external/cJSON.c:540-573 | the value of four hexadecimal digits, zero for anything else |
| `ParseBuffers.ParseBuffer.SkipWhitespace` | external/http/external/cJSON.c:963-981 | skips every byte up to 32 and stops on the terminator at the latest |
| `ParseBuffers.ParseBuffer.SkipByteOrderMark` | external/http/external/cJSON.c:984-998 | skips a byte order mark that something follows |
| `StringSyntax.DelimitedIff` | external/http/external/cJSON.c:711-733 | the first pass takes a text for a body if and only if it is made of bytes other than quotes and backslashes and of backslashes with a byte each |
| `StringSyntax.DecodedIff` | external/http/external/cJSON.c:744-799 | the second pass decodes a body to out if and only if plain bytes, the short escapes of RFC 8259, code escapes and surrogate pairs spell it and mean out, the last one possibly taking the closing quote along |
| `StringSyntax.BodyIff` | external/http/external/cJSON.c:698-824 | both passes accept a body if and only if it is valid, and deliver its meaning |
| `StringSyntax.ShortIff` | external/http/external/cJSON.c:757-787 | the two-character escapes the parser knows, and what they stand for, are the eight of RFC 8259 |
| `StringSyntax.UnitIff` | external/http/external/cJSON.c:540-573 | four bytes have the value of their places among the hexadecimal digits, of either case, and zero when one is no digit |
| `StringSyntax.SpellingMeaning` | external/http/external/cJSON.c:744-799 | all parts that spell a body mean the same bytes |
| `StringSyntax.SwallowedQuote` | external/http/external/cJSON.c:540-573 | a literal on which the passes disagree and the closing quote is decoded |
| `Strings.DecodeFits` | external/http/external/cJSON.c:711-804 | for every delimited literal the decoded bytes are at most those the first pass counted |
| `Strings.UnitFits` | external/http/external/cJSON.c:744-799 | the same for one round, in both states the first pass can be in |
| `Strings.DecodeEscape` | external/http/external/cJSON.c:827-946 | decoding what the printer escapes gives the string back |
| `Strings.EscapeIsRaw` | external/http/external/cJSON.c:827-946 | escaped text holds no bare quote, so the first pass ends at the printer's closing quote |
| `Strings.ScanSound` | external/http/external/cJSON.c:711-733 | what the first pass delimits is a body in which every quote is escaped |
| `Strings.ScanComplete` | external/http/external/cJSON.c:711-733 | every such body is delimited exactly |
| `Strings.DecodeUnits` | external/http/external/cJSON.c:540-695 | escaped 16-bit units decode as UTF-16 does, to UTF-8, and not at all when a surrogate is unpaired |
| `Escapes.ParseUnits` | external/http/external/cJSON.c:698-824 | parse_string on escapes of four hexadecimal digits each returns the UTF-8 encoding of what their values denote as UTF-16, or fails when a surrogate is unpaired |
| `Escapes.ParseScalars` | external/http/external/cJSON.c:698-824 | every sequence of Unicode scalar values written with escapes is parsed to its UTF-8 encoding |
| `Escapes.DecodeUtf16All` | external/http/external/cJSON.c:602-633 | combining surrogate pairs undoes the UTF-16 encoding of RFC 2781 |
| `Unicode.Utf8Iff` | external/http/external/cJSON.c:640-695 | bytes are the encoding of a scalar value if and only if the syntax of section 4 of RFC 3629 reads them as it |
| `Bits.Continuation` | external/http/external/cJSON.c:672-678 | the continuation byte is 0x80 plus the low six bits |
| `ParseBuffers.CombineBits` | external/http/external/cJSON.c:632 | the masked and shifted halves make up the code point of a surrogate pair |
| `Numbers.StrtodPrefix` | external/http/external/cJSON.c:266-340 | the conversion depends only on the characters it uses, however many follow |
| `Numbers.ScaleUp` | external/http/external/cJSON.c:314 | scaling by a power of ten multiplies by it |
| `Numbers.ScaleDown` | external/http/external/cJSON.c:314 | scaling by a negative power of ten divides by it |
| `Numbers.MaximalMunch` | external/http/external/cJSON.c:266-340 | strtod uses exactly the longest number among the first 63 number characters |
| `NumberSyntax.NumeralIff` | external/http/external/cJSON.c:266-340 | a text of at most 63 characters is made of a sign, digits, a fraction and a power of ten if and only if strtod uses all of it, and then strtod returns what the places of its digits and its power mean |
| `NumberSyntax.SpelledConverts` | external/http/external/cJSON.c:266-340 | strtod on the text of any such parts returns their value and uses every character, however long they are |
| `NumberSyntax.NumeralMeaning` | external/http/external/cJSON.c:266-340 | all ways to take a number apart mean the same value |
| `NumberSyntax.LongestIff` | external/http/external/cJSON.c:279-313 | the longest number at a place is the longest one among the characters handed to strtod |
| `Standard.ReadsStandard` | external/http/external/cJSON.c:1000-1077 | a text that RFC 8259 allows, with numbers of at most 63 characters and paired surrogates, is read to its end with the value it denotes if and only if that is nested at most 1000 deep |
| `Standard.Belongs` | external/http/external/cJSON.c:1212-1264 | what RFC 8259 allows is valid in the grammar and means what it denotes |
| `Standard.MarkEncodes` | external/http/external/cJSON.c:984-998 | the mark that is skipped is the encoding of U+FEFF |
| `Numbers.DecimalRoundTrip` | external/http/external/cJSON.c:474-537 | the decimal text of an integer of at most 15 digits converts back to it, with every character used |
| `Rendering.RoundTrip` | external/http/external/cJSON.c:1000-1077 | parsing the printed text of a tree, formatted or not, returns the tree with its member order if and only if it is nested at most 1000 deep |
| `RoundTrips.PrintAndParse` | external/http/external/cJSON.c:1000-1150 | running the printer and then the parser returns the tree if and only if it is nested at most 1000 deep, unless the text could not be printed |
| `Rendering.SyntaxText` | external/http/external/cJSON.c:1267-1338 | printed text is the text of a syntax tree of the grammar |
| `Rendering.SyntaxMeaning` | external/http/external/cJSON.c:1435-1717 | that syntax tree is valid and means the printed tree |
| `StandardPrinting.PrintsStandard` | external/http/external/cJSON.c:1267-1338 | the text of every tree, formatted or not, is a text of RFC 8259 that denotes the tree |
| `StandardPrinting.EscapeDenotes` | external/http/external/cJSON.c:880-942 | an escaped string is a body of RFC 8259 that denotes the string, with small hexadecimal digits |
| `StandardPrinting.EscapeShortest` | external/http/external/cJSON.c:854-878 | no body of RFC 8259 that denotes the string is shorter |
| `StandardPrinting.PrintedNumber` | external/http/external/cJSON.c:474-537 | a printed number has a sign and digits without leading zeros, no point and no exponent, and the value |
| `Layouts.Layout` | external/http/external/cJSON.c:1435-1717 | an example of formatted text, character by character |
| `PrintBuffers.PrintBuffer.Ensure` | external/http/external/cJSON.c:373-458 | room behind the offset, with everything printed kept; a ready buffer fails only when an allocation fails or the size can never be reached, and a missing buffer or an offset behind its end fails |
| `PrintBuffers.KeptFits` | external/http/external/cJSON.c:423-453 | growing copies only bytes there are if and only if realloc does it or the offset is inside the buffer; an empty buffer without realloc is a case in which it does not |
| `PrintBuffers.PrintBuffer.UpdateOffset` | external/http/external/cJSON.c:461-471 | the offset moves to the terminator of the last piece |
| `PrintBuffers.PrintBuffer.CountEscapes` | external/http/external/cJSON.c:854-878 | the first pass counts exactly the bytes escaping adds; `StandardPrinting.EscapeShortest` says that they are the fewest |
| `PrintBuffers.PrintBuffer.PrintString` | external/http/external/cJSON.c:827-946 | the quoted and escaped text behind the offset; it works exactly when it and two more bytes fit, unless an allocation fails |
| `PrintBuffers.PrintBuffer.PrintValue` | external/http/external/cJSON.c:1267-1338 | the buffer holds what was there and then the rendering of the tree, and a fixed buffer is untouched behind its length |
| `PrintBuffers.PrintBuffer.PrintArray` | external/http/external/cJSON.c:1435-1494 | the same for arrays |
| `PrintBuffers.PrintBuffer.PrintObject` | external/http/external/cJSON.c:1606-1717 | the same for objects |
| `PrintBuffers.Print` | external/http/external/cJSON.c:1087-1150 | an array of exactly the text and its terminator; fails only on allocation failure or beyond INT_MAX |
| `PrintBuffers.PrintBuffered` | external/http/external/cJSON.c:1162-1190 | the text for every initial buffer size, with the same exact failure condition |
| `PrintBuffers.PrintPreallocated` | external/http/external/cJSON.c:1192-1209 | succeeds if and only if the text and two more bytes fit into len, and leaves every byte from len on alone |
| `PrintBuffers.RenderNoNul` | external/http/external/cJSON.c:461-471 | printed text has no terminator inside, which update_offset relies on |
| `Minifying.IdempotentIff` | external/http/external/cJSON.c:2632-2700 | minifying a second time changes nothing if and only if no kept slash outside a string has a slash or a star as the next kept byte |
| `Minifying.ClosedIff` | external/http/external/cJSON.c:2632-2700 | the loop ends at the terminator if and only if a scan from left to right finds every string literal and block comment closed |
| `Minifying.NeverClosed` | external/http/external/cJSON.c:2668-2692 | a single quote and an opened block comment are not closed |
| `Minifying.MinifyKeepsMeaning` | external/http/external/cJSON.c:2632-2700 | minifying a text that parses stays inside it, parses to the same value, and is safe and therefore idempotent |
| `Minifying.MinifyFormatted` | external/http/external/cJSON.c:2632-2700 | the formatted print of every tree minifies to its unformatted print, which is a fixed point |
| `Minifying.MinifyTwice` | external/http/external/cJSON.c:2660-2667 | a text that is not safe, and what minifying it once and twice leaves |
| `Minifying.MinifySpaceFree` | external/http/external/cJSON.c:2643-2659 | what is kept has none of the four whitespace bytes of RFC 8259 outside of string literals |
| `Minifying.MinifyKeeps` | external/http/external/cJSON.c:2691-2695 | everything but whitespace, quotes and slashes is kept as it is |
| `Minifying.MinifyLineComment` | external/http/external/cJSON.c:2660-2667 | a line comment is dropped with its line end |
| `Minifying.MinifyBlockComment` | external/http/external/cJSON.c:2668-2676 | a block comment is dropped; it ends at the first star in front of a slash, the star that opens it included |
| `MinifyBuffers.MinifyInPlace` | external/http/external/cJSON.c:2632-2700 | the in-place pass reads nothing behind the terminator if and only if every string literal and block comment is closed; then it leaves the minified text and a terminator; it never writes ahead of where it reads nor behind the text |
| `ItemComparing.Compare` | external/http/external/cJSON.c:2802-2925 | the running comparison of two items, the shortcut for identical items and missing items included, decides the relation that the rows below are about |
| `ItemComparing.ComparesAsEquivalence` | external/http/external/cJSON.c:2802-2925 | on the items of one heap, common ones included, comparing is reflexive for every item with a type, symmetric and transitive |
| `ItemComparing.ComparesExactly` | external/http/external/cJSON.c:2802-2925 | for all trees, common items and any flags included: both are sound and mean the same if and only if they compare equal and one of them is sound; when common items are sound that is so if and only if they compare equal |
| `ItemComparing.ApartCompare` | external/http/external/cJSON.c:2832-2925 | two trees without a common item compare equal if and only if both are sound, that is for each member the first of its name is not hidden and means the same, and mean the same |
| `ItemComparing.ValuesCompare` | external/http/external/cJSON.c:2832-2925 | without common items and flags on null members, items compare equal if and only if their values do |
| `ItemComparing.ProperIsSound` | external/http/external/cJSON.c:1772-1801 | a tree whose value is proper is sound, whatever flags it has |
| `ItemComparing.SoundIsProper` | external/http/external/cJSON.c:1772-1801 | a sound tree in which no null member has a flag has a proper value |
| `ItemComparing.SharedNullMember` | external/http/external/cJSON.c:2827-2830 | an object with a null member without flags is equal to itself, and to no tree without a common item |
| `ItemComparing.FlaggedNull` | external/http/external/cJSON.c:1797-1799 | an object with a null member is sound if and only if the type of the null has a flag, its value is never proper, and copying drops the reference flag |
| `ItemComparing.SameItem` | external/http/external/cJSON.c:2827-2830 | an item is the same node wherever it is reached, since its children determine their list |
| `ItemComparing.CopyCompares` | external/http/external/cJSON.c:2553-2630 | what Duplicate returns compares equal to its source if and only if every item has a type, every string a text and every member a name, and the source without reference flags is sound |
| `ItemComparing.GetObjectItem` | external/http/external/cJSON.c:1772-1801 | the first member of that name, members without a name passed over when case does not count; hidden when it is a null without flags in its type; null for a missing object or name |
| `Comparing.EqualIff` | external/http/external/cJSON.c:2832-2925 | the values of two trees compare equal if and only if both are proper and are the same up to order, repetition and case of keys |
| `Comparing.PartialEquivalence` | external/http/external/cJSON.c:2832-2925 | comparing values is symmetric and transitive, and a value equals itself exactly when it is proper |
| `Comparing.PlainEqual` | external/http/external/cJSON.c:2832-2925 | on values with unique keys and no null members it is equality up to member order |
| `Comparing.CaseInsensitiveStrcmp` | external/http/external/cJSON.c:97-118 | zero exactly for strings that are the same in lower case, otherwise the difference at the first place where they differ |
| `Comparing.FoldIff` | external/http/external/cJSON.c:97-118 | two keys are the same without regard to case if and only if they differ only where one has a letter and the other the same letter in the other case |
| `ChildChains.GetArrayItem` | external/http/external/cJSON.c:1743-1760 | the item at that place, or null |
| `ChildChains.AddItem` | external/http/external/cJSON.c:1847-1874 | the list is that of before with the item behind it |
| `ChildChains.InsertItem` | external/http/external/cJSON.c:2144-2171 | the list with the item at that place, or at the end when it is past the end |
| `ChildChains.DetachItem` | external/http/external/cJSON.c:2074-2102 | the list without the item, which points nowhere afterwards |
| `ChildChains.DetachItemAt` | external/http/external/cJSON.c:2104-2112 | the same by position, and nothing for a position that is not there |
| `ChildChains.ReplaceItem` | external/http/external/cJSON.c:2173-2206 | the list with the replacement in place; the old item is cut off before it is deleted |
| `ChildChains.ReplaceItemAt` | external/http/external/cJSON.c:2208-2216 | the same by position |
| `ChildChains.Run` | external/http/external/cJSON.c:2074-2216 | every run of edits leaves a well-formed doubly linked list of what the same edits make of the sequence |
| `Duplicating.Duplicate` | external/http/external/cJSON.c:2553-2630 | a copy of the item or of the whole tree, made of new items no two of which coincide, with the same content and no references; fails only when an allocation fails |
| `Duplicating.CopyComparesEqual` | external/http/external/cJSON.c:2802-2925 | as values, which have no type flags, a copy equals its source exactly when the source is proper |
| `Duplicating.NullMemberCopy` | external/http/external/cJSON.c:1797-1799 | as values the copy of an object with a null member does not equal its source |
| `Sha256Streams.SHA256.constructor` | apps/uab/header/src/sha256.h:198-214 | the initial hash value and an empty block |
| `Sha256Streams.SHA256.Update` | apps/uab/header/src/sha256.h:87-113 | the state is that of all bytes passed so far: full blocks hashed, fewer than 64 bytes kept, total the hashed bits |
| `Sha256Streams.SHA256.Final` | apps/uab/header/src/sha256.h:115-144 | the FIPS 180-4 digest of all bytes passed to update |
| `Sha256Streams.SHA256.FinishOne` | apps/uab/header/src/sha256.h:115-138 | with at most 55 bytes in the block one block of section 5.1.1 padding is hashed |
| `Sha256Streams.SHA256.FinishTwo` | apps/uab/header/src/sha256.h:115-138 | otherwise two are |
| `Sha256Streams.SHA256.TransformBlock` | apps/uab/header/src/sha256.h:147-196 | one block changes the hash value by the compression function |
| `Sha256Streams.SHA256.Transform` | apps/uab/header/src/sha256.h:147-196 | the hash value of all blocks before and all blocks given |
| `Sha256Streams.ExpandBlock` | apps/uab/header/src/sha256.h:155-163 | the message schedule of section 6.2.2 |
| `Sha256Streams.RunRounds` | apps/uab/header/src/sha256.h:165-185 | the 64 rounds of section 6.2.2 |
| `Sha256Streams.LoadBlock` | apps/uab/header/src/sha256.h:150-153 | the swapped machine words are the block's big-endian words |
| `Sha256Streams.LoadSwapped` | apps/uab/header/src/sha256.h:21-29 | reading four bytes and swapping them gives their big-endian value |
| `Sha256Streams.HashChunks` | apps/uab/header/src/sha256.h:87-144 | however a message is cut into update calls, the digest is that of the message |
| `Sha256Streams.PadOne` | apps/uab/header/src/sha256.h:115-138 | the padded message is the full blocks and one block with marker, zeros and length |
| `Sha256Streams.PadTwo` | apps/uab/header/src/sha256.h:115-138 | the padded message is the full blocks, one with the marker and one with the length |
| `Sha256.PadInjective` | apps/uab/header/src/sha256.h:115-138 | different messages are padded differently |
| `Sha256.ZeroCount` | apps/uab/header/src/sha256.h:119-131 | the fewest zero bytes that bring the length to 56 modulo 64 |
| `Sha256Words.RotatedBit` | apps/uab/header/src/sha256.h:16-19 | rotating moves each bit around the end of the word |
| `Sha256Words.ChosenBit` | apps/uab/header/src/sha256.h:63-66 | each bit is the second word's where the first word has a one, and the third word's elsewhere |
| `Sha256Words.MajorityBit` | apps/uab/header/src/sha256.h:68-71 | each bit is what at least two of the words have |
| `Sha256Words.WordOfBytes` | apps/uab/header/src/sha256.h:139-143 | the bytes written for a word are its big-endian bytes |
| `Sha256Words.LengthOfBytes` | apps/uab/header/src/sha256.h:131-136 | the bytes of the length make it up, the first one counting most |
| `Sha256Words.RoundConstant` | apps/uab/header/src/sha256.h:200-211 | each round constant is the first 32 bits of the fraction of its prime's cube root |
| `Sha256Words.InitialConstant` | apps/uab/header/src/sha256.h:212-213 | each word of the initial hash value is the first 32 bits of the fraction of its prime's square root |
| `Sha256Example.AbcDigest` | apps/uab/header/src/sha256.h:87-196 | the digest of abc, byte by byte, through the schedule and all rounds |
| `Sha256Example.HashAbc` | apps/uab/header/src/sha256.h:87-196 | the class returns these bytes however abc is cut into update calls |
| `DigestLoops.CalculateDigest` | apps/uab/header/src/main.cpp:268-320 | the bytes behind the returned text under every schedule of reads: the digest of what was fed, zeros when final was not called, nothing on an error |
| `DigestLoops.HashesExactly` | apps/uab/header/src/main.cpp:285-310 | for every file and slice: every schedule hashes exactly the slice or reports an error if and only if the file holds the slice, which is not empty and is at least 4096 bytes long or ends the file; as many reads that deliver something and do not fail as the slice has bytes finish it |
| `DigestLoops.RunEnds` | apps/uab/header/src/main.cpp:291-310 | from every state the loop can be in, as many successful reads as bytes are left end it with the slice hashed |
| `DigestLoops.NextOnCourse` | apps/uab/header/src/main.cpp:291-310 | each round keeps position and remaining length in step, and no request passes the slice unless it is shorter than 4096 bytes and ends the file |
| `DigestLoops.Overrun` | apps/uab/header/src/main.cpp:285-310 | for every other slice, those past the end of the file included, a schedule under which final is never called |
| `DigestLoops.FailureIff` | apps/uab/header/src/main.cpp:291-299 | from every state, an error is reported if and only if a read fails while the loop is still waiting |
| `StrReplacing.StrReplace` | external/http/src/apiClient.c:486-536 | the replaced text and its terminator fill the allocated size exactly; null only for missing or empty arguments or a failed allocation |
| `StrReplacing.CountOccurrences` | external/http/src/apiClient.c:509-513 | the first pass counts the leftmost occurrences that do not overlap |
| `StrReplacing.Fill` | external/http/src/apiClient.c:515-533 | the second pass finds the same occurrences |
| `StrReplacing.ReplacedLength` | external/http/src/apiClient.c:515 | the computed size is the length of the result |
| `StrReplacing.PiecesCut` | external/http/src/apiClient.c:509-533 | the pieces between replaced occurrences make up the original, each cut at the leftmost occurrence |
| `StrReplacing.PiecesOnly` | external/http/src/apiClient.c:509-533 | no other way of cutting does |
| `ArgNames.MakeArgNames` | tools/qdbusxml2cpp/qdbusxml2cpp_6.cpp:405-436 | one name per argument, all different, each its argument's base name with the fewest underscores that make it new |
| `ArgNames.MakeFresh` | tools/qdbusxml2cpp/qdbusxml2cpp_6.cpp:420-421 | the renaming loop ends, since a name longer than all others is new |
| `ArgNames.NamedOnce` | tools/qdbusxml2cpp/qdbusxml2cpp_6.cpp:405-436 | the names are determined by that |
| `ArgNames.WriteArgList` | tools/qdbusxml2cpp/qdbusxml2cpp_6.cpp:438-470 | the text is the declarations of all inputs, by constant reference for types of Qt, and of all outputs but the first, by reference, in order and joined by a comma and a space |
| `ArgNames.Declared` | tools/qdbusxml2cpp/qdbusxml2cpp_6.cpp:438-470 | the text is those declarations joined, and splitting it at the separators gives them back when there is no comma in them |
| `ArgNames.DigitsDecimal` | tools/qdbusxml2cpp/qdbusxml2cpp_6.cpp:413-418 | the number in an invented name is written in decimal |
| `ArgNames.WriteBody` | tools/qdbusxml2cpp/qdbusxml2cpp_6.cpp:786-811 | the arguments sent and the names assigned, by position |
| `ArgNames.WriteMethod` | tools/qdbusxml2cpp/qdbusxml2cpp_6.cpp:768-815 | the text is the parameters joined, which have different names; inputs are sent in order, and the parameter declared for an output is the one assigned from that part of the reply |
| `Namespaces.WriteNamespaces` | tools/qdbusxml2cpp/qdbusxml2cpp_6.cpp:838-873 | for every list of interfaces the lines are balanced, each brace closes under its opening line, each alias is inside exactly its own path, and nothing stays open |
| `Namespaces.MoveTo` | tools/qdbusxml2cpp/qdbusxml2cpp_6.cpp:849-860 | exactly the parts behind the longest common path are closed and opened |
| `Namespaces.SplitParts` | tools/qdbusxml2cpp/qdbusxml2cpp_6.cpp:845 | splitting at dots can be undone and leaves parts without dots |
| `Namespaces.PathAndLast` | tools/qdbusxml2cpp/qdbusxml2cpp_6.cpp:844-847 | path and alias make up the interface's name |
| `MountOptions.Mount.FromJson` | apps/ll-box/src/util/oci_runtime.h:103-198 | the mount's fields, and flag words and data as the options in their order make them |
| `MountOptions.LastOptionWins` | apps/ll-box/src/util/oci_runtime.h:178-197 | each bit of the flag words is as the last option touching it says, and as before when none does |
| `MountOptions.PropagationUnion` | apps/ll-box/src/util/oci_runtime.h:186-187 | the propagation flags are the union of those named |
| `MountOptions.DataIsRest` | apps/ll-box/src/util/oci_runtime.h:194-196 | the mount data is exactly the remaining options in their order |
| `MountOptions.DefaultsAreData` | apps/ll-box/src/util/oci_runtime.h:122 | an option without flags in the table is mount data |
| `MountNames.FlagByName` | apps/ll-box/src/util/oci_runtime.h:117-153 | for every flag by its bit: it is set if and only if the last option that sets or clears it, by name, is one that sets it, and as before when there is none |
| `MountNames.PropagationByName` | apps/ll-box/src/util/oci_runtime.h:155-160 | a propagation bit is set if and only if it was before or an option names it |
| `MountNames.ExtensionByName` | apps/ll-box/src/util/oci_runtime.h:162-164 | the extension bit is set if and only if it was before or copy-symlink is there |
| `MountNames.DataByName` | apps/ll-box/src/util/oci_runtime.h:178-197 | an option is mount data if and only if its name stands for no flag |
| `MountNames.FsTypeByName` | apps/ll-box/src/util/oci_runtime.h:105-109 | each file system type has its name, and no other name has a type |

## Left out

- Floating point: rounding, overflow, negative zero, NaN and infinity in numbers, `valueint` and its saturation, locale-dependent decimal points, and printing of numbers that are not integers of at most 15 digits.
- `cJSON_Raw` in round trips, since raw text need not be JSON; printing raw text is modelled.
- NULL items, NULL keys and NULL strings in cJSON trees, except where a member takes a possibly missing item.
- ParseBuffers.ParseWithOpts: a failed allocation of an item or a string, on which the source gives up, is not modelled.
- ParseBuffers.ParseBuffer.ParseElements: the same for the items of an array.
- ParseBuffers.ParseBuffer.ParsePairs: the same for the members of an object.
- ParseBuffers.ParseBuffer.ParseString: the same for the decoded string.
- ParseBuffers.ParseBuffer.ParseNumber: `valueint` with its saturation, and rounding to `double`, are not modelled.
- Strings decoded to a zero byte: the model keeps the bytes behind it, which C string functions no longer see.
- Parsed and printed trees are values, not linked items; the heap form is modelled for child lists, copies and comparing.
- Dead checks for the end of the buffer in the parser, which blank skipping makes unreachable.
- PrintBuffers.PrintBuffer.Ensure: an empty buffer without `realloc` is excluded, because growing it copies a byte that is not there (`PrintBuffers.KeptFits`).
- PrintBuffers.PrintBuffered: an empty first buffer without `realloc` is excluded, because growing it copies a byte that is not there (`PrintBuffers.KeptFits`).
- MinifyBuffers.MinifyInPlace: what the code does after it has left the text is not modelled; the model stops there and says so.
- Comparing.EqualIff: a tree as a value has no type flags, so every null member counts as hidden; `ItemComparing.ApartCompare` is the law for items with flags.
- Comparing.PartialEquivalence: the same; `ItemComparing.CopyCompares` says when a copy with flags equals its source.
- Duplicating.CopyComparesEqual: the same; `ItemComparing.CopyCompares` is the law for items with flags.
- ItemComparing.Compare: members without a name when case counts are excluded, because the source passes the missing name to `strcmp`.
- ItemComparing.GetObjectItem: the same for the members it looks through.
- Standard.ReadsStandard: an unpaired surrogate escape, which RFC 8259 allows and leaves without meaning, and which cJSON rejects.
- Duplicating.Duplicate: deletion of a half-made copy after a failed allocation is not modelled.
- ChildChains.ReplaceItem: deletion of the replaced item is modelled as the item being gone from then on.
- StrReplacing.StrReplace: sizes are unbounded, so overflow of the `int` counters beyond 2 GiB is not modelled; freeing the original is not modelled.
- Sha256Streams.SHA256.Update: `size_t` overflow of `pos + len` is not modelled, since no buffer is that long.
- DigestLoops.CalculateDigest: the hexadecimal text of the digest, and the messages printed on errors.
- MountOptions.Mount.FromJson: missing or ill-typed JSON fields, and unknown file system types, for which the source dereferences an end iterator.
- Namespaces.WriteNamespaces: a line is its indentation and the names in it, not its characters.
- MountOptions.LastOptionWins: a flag word is the set of its bits, so the numeric values of the flags appear as bit numbers only.
- ArgNames.Declared: a type with a comma in it is written as it is, but splitting at separators cuts it too.
- ArgNames.WriteBody: the text around names and positions in the generated body.
- Allocation hooks, `global_error`, and the Create, Add, Is and Get wrappers of cJSON, which are one branch each.
- The big-endian branches of sha256.h, and any statement about the strength of SHA-256.
- The rest of the code generators, of the HTTP client, of ll-box and of the command line tools: plumbing around system calls and text templates.
