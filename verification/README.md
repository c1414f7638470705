# Verification of qbs' JSON store, package merging and session protocols

This project models four parts of qbs in Dafny and proves what they promise.

**The binary JSON store** (`src/shared/json/json.cpp`). A document is one buffer. A
container in it is a 12-byte header, a data region and a table of 32-bit words; object
tables are sorted by key. `Arena.Contents` says which JSON value a block of bytes stands
for when it is used as an array or as an object, or that it breaks the layout: offsets out
of bounds or misaligned, keys out of order, more storage in use than there is. A nested
block is used as what the value word that refers to it says; for a root its own tag
decides (`Arena.Doc`). Everything about the store is stated through these functions.

- `Bytes`, `Numbers`, `Bitfields`: little-endian words, the packed value word as
  arithmetic and as bits, and the packing of small integral doubles.
- `Json`: documents as values, the order of keys, and binding and removing a key in sorted
  members, shown to be map update and map removal.
- `Arena`, `Layout`, `Blocks`, `Tables`, `Values`, `Payloads`: the layout, what edits of
  its parts mean, and values on their way into it.
- `Search`: the key comparison and the two binary searches.
- `Store`, `Compaction`, `Overflow`: class `Data`, with insertion, replacement and removal
  in place, and the compactor, with a document it breaks.
- `Validity`, `Trust`, `Binary`, `Sample`: the validation of binary data, what it leaves
  open, saving and loading, and one document byte by byte.
- `Reader`, `Parser`: a reading of texts by position, and the recursive-descent parser that
  writes into a growing buffer and agrees with it.
- `Grammar`, `Syntax`, `Acceptance`: JSON texts as section 2 of RFC 8259 defines them,
  written down without the reading; every one of them is read as what it stands for, and
  nothing else but a little leniency in numbers and escapes is.
- `Printer`, `Lines`, `RoundTrip`: the printers, how their texts are laid out, and the
  proof that reading is their inverse.
- `Handles`: `JsonArray` and `JsonObject` on shared, reference-counted buffers that are
  copied before they are written.

**Package dependency merging** (`src/lib/pkgconfig`). `Versions` compares versions,
`Merge` holds the memoised depth-first search against a plain recursive definition, and
`ModuleList` splits requirement lines into modules.

**The session** (`src/app/qbs`). `Packets` is the length-prefixed framing and the chunked
reader; `Session` is the state machine over the current job and the waiting resolve
request, with jobs as an environment that may end at any time.

**The process launcher** (`src/libexec/qbs_processlauncher`). `Launcher` is the
terminate, kill, give-up procedure and the packets that report how processes end.

## Reading the model

- `Data.body` is the memory behind the 8-byte file header; tag and version appear where
  binary data is saved, loaded and parsed. Memory obtained from `malloc` or `realloc` has
  an unknown content: callers rely on its length only.
- A ghost argument such as `vs`, `ms` or `p` of a method names the value that the memory
  stands for, so that contracts can mention it.
- Integers are unbounded except where a width matters: words are 32 bits, offsets 27,
  `size_t` accumulators wrap around. The parser's `int` sizes are shown not to overflow
  for texts of up to `Parser.MAX_TEXT` bytes (about 58 million).
- The C library's `strtod` and `sprintf` and Qt's `toInt` are parameters. `strtoll` is
  modelled, with base 0 as the parser calls it.
- In `Handles` every method takes the set `live` of all handles. `Consistent(live)` says
  that every buffer counts exactly the handles on it and every handle shows a well-formed
  container; every method keeps it, but for the move to the root described under Findings,
  and says that no other handle's value or tag changes. Since any sequence of operations is
  a sequence of such calls, this is the isolation property over all runs.
- In `Session` requests are numbered in the order of their arrival, and every number has
  exactly one fate. The ghost `history` lists what has happened to the project over the
  run: resolve jobs that ended, with their outcome, and releases.
- A `Tree` in `Syntax` is a text taken apart: pieces of strings, digits, and the space in
  front of and behind every value. `Text` puts it together, `Value` says what it stands for.
- `Lines.Indented` and `Lines.Compacted` go through a text byte by byte and count open
  brackets. They know nothing of documents or of the printer.

## Findings

- An object handle without data is stored as a static block that is tagged as an array
  (`src/shared/json/json.cpp:4625-4626`). Readers inside a container take the kind from
  the value word and never look at that tag, so it reads back as an empty object, like
  every other value (`Values.StoredReadsBack`). The tag matters when the block becomes a
  root: cloned into a buffer of its own, a stored container is the document it was
  exactly when it was not such a handle, or, if it had data, when its own tag was right
  already (`Values.StoredRoot`). Where the tag of a root decides (printing at 3472,
  `JsonDocument::object` at 3570, `compact` at 4638, `valid` at 4709), that object is
  taken for an array; once it has an entry behind its header it is not even a
  well-formed one (`Values.MistaggedRoot`). A handle shows its document if and only if the
  tag is right (`Handles.Handle.ShownIsDocument`). Editing through the handle goes on
  working up to the first compaction, which is what `Sound` in the contracts is about.
- A handle on a nested container that is the only one on its buffer is edited where it is
  by `removeAt` and `remove` (`src/shared/json/json.cpp:2204-2205`). Until a compaction is
  due, which is when more than 32 and at least half as many removals as items are left
  have been made, that is right. When one is due, the root is compacted and the handle
  is moved there: it no longer shows its own container but the document around it, or,
  if that is of the other kind, a misreading of it. `Handles.Handle.RemoveAt` and
  `Handles.Handle.Remove` say so for all inputs (`LosesPlace`, `ShowsRoot`).
- The parser bounds the offsets of values (`src/shared/json/json.cpp:4316-4342`) but not those of object
  entries, and a payload behind an entry can be of any size. `compact` writes payload
  offsets into 27 bits. What it has copied is referred to exactly when every new payload
  offset is below 2^27 (`Compaction.CopiesAreReferred`), and then the document stays the
  same and is packed (`Store.Data.Compact`). A two-member object as the parser lays it out,
  `{"b":"x","a":"..."}` with 2^27 bytes in the second string, is no longer an object
  after it (`Overflow.CompactionBreaksHugeObject`).
- The checks on binary data are not enough for well-formedness. `Trust.WellFormedIff`
  lists what is missing: alignment, offsets at or behind the header, sizes that are what
  they say, known types, distinct keys, and no storage shared. The worst case accepted is an
  array with an item of type array at offset 0: that passes (`src/shared/json/json.cpp:4873`), and is the array it is
  in, so that reading it never ends (`Trust.ItselfIsAccepted`).
- In the merged flags of a package the memory of flags seen is shared by both lists
  (`src/lib/pkgconfig/pkgconfig.cpp:369-420`): a flag that occurs in `libs` first is
  dropped from `cflags`. `Merge.FlagsConserved` and `Merge.FlagsInOrder` say so exactly.
- After a bad packet header the reader keeps its input and reports the error again with
  every further chunk; no packet is emitted any more.

## Model

| member | source | states |
|---|---|---|
| Bitfields.FieldsAreArithmetic | src/shared/json/json.cpp:135-167 | the bit-field templates for is_object, length, type, intValue and value read a 32-bit word exactly as the division and remainder arithmetic that the rest of the model uses |
| Bitfields.ValueFieldAssignment | src/shared/json/json.cpp:169-201 | assigning the 27-bit payload through either template leaves type and flag bits alone and reads back unchanged, unsigned below 2^27 and signed for every magnitude below 2^26 |
| Numbers.PackedSigned | src/shared/json/json.cpp:354-369 | a number of magnitude below 2^26 stored in the unsigned 27-bit payload is read back by the signed template, for both signs |
| Numbers.CompressedIsExact | src/shared/json/json.cpp:215-237 | over all finite doubles, compressedNumber answers with n if and only if the double equals n and n is a nonzero integer of magnitude below 2^26 |
| Numbers.CanonicalKeepsValue | src/shared/json/json.cpp:441-450 | the JSON number read from a stored double denotes the same real number |
| Json.LessAtDifference | src/shared/json/json.cpp:288-301 | the key order is decided at the first differing byte, unsigned, and a proper prefix comes first |
| Json.LessTransitive | src/shared/json/json.cpp:288-301 | the key order is transitive |
| Json.LessTotal | src/shared/json/json.cpp:288-301 | any two different keys are ordered one way or the other |
| Json.LessIrreflexive | src/shared/json/json.cpp:288-301 | no key is below itself |
| Search.StringLess | src/shared/json/json.cpp:288-301 | the pointer loop of String::operator< decides that order |
| Search.IndexOf | src/shared/json/json.cpp:4753-4773 | on the table of any well-formed object the binary search answers presence and the rank that a linear scan finds |
| Search.ParsedObject.LowerBound | src/shared/json/json.cpp:4081-4093 | the binary search over the parser's offsets finds the rank of the new key |
| Search.ParsedObject.Insert | src/shared/json/json.cpp:4081-4101 | inserting a member keeps the offsets strictly sorted by key and makes the object the one where a later duplicate replaces an earlier one |
| Json.PutIsMapUpdate | src/shared/json/json.cpp:2490-2532 | binding a key in sorted members is map update, and the members stay strictly sorted |
| Json.WithoutIsMapRemoval | src/shared/json/json.cpp:2538-2553 | removing a key from sorted members is map removal, and the members stay strictly sorted |
| Json.MapDeterminesMembers | src/shared/json/json.cpp:310-320 | strictly sorted members are determined by the map they spell out, so stating edits on members states them on maps |
| Arena.ValueGrows | src/shared/json/json.cpp:354-382 | a well-formed value stands for the same JSON after data is appended to its container |
| Arena.PayloadInData | src/shared/json/json.cpp:4828-4852 | the payload of a well-formed value lies between the header and the table of its container |
| Search.KindOfValue | src/shared/json/json.cpp:354-369 | in a well-formed container the type codes 0 to 5 of value words are null, truth value, number, string, array and object, and no other code occurs |
| Layout.ObjectDocIs | src/shared/json/json.cpp:310-352 | a table stands for an object exactly when its entries spell members in strictly ascending key order and use no more storage than there is |
| Layout.ObjectPut | src/shared/json/json.cpp:2490-2532 | a complete new entry put at the rank of its key, or in place of the entry with that key, turns the object into the one with the key bound |
| Layout.ArrayInserted | src/shared/json/json.cpp:1511-1533 | a value word inserted at a position turns the array into the one with the value inserted there |
| Values.StoredReadsBack | src/shared/json/json.cpp:4893-4976 | whatever has been stored is read back, containers without data as empty ones, in exactly the storage set aside for it |
| Values.StoredRoot | src/shared/json/json.cpp:536-555 | a stored container cloned into a buffer of its own is what was stored as long as its handle says what it is; as a root it is so exactly when the block handed over was, and an object handle without data hands over one that is an array |
| Values.Meanings | src/shared/json/json.cpp:4893-4976 | what each kind of value stands for once it is stored, constructor by constructor: null and undefined as null, either truth value as itself, a double as its number, a string as itself, a container as what its block holds, one without data as the empty one of its kind |
| Values.MistaggedRoot | src/shared/json/json.cpp:4625-4639 | an object under the tag of an array with an entry right behind its header is no document |
| Store.Data.ReserveSpace | src/shared/json/json.cpp:4718-4743 | the table is moved behind the new room, one word is inserted or redirected to it, every other word and all data stay, offsets fit 27 bits; or the size limit is reported and nothing changes |
| Store.Data.RemoveItem | src/shared/json/json.cpp:4745-4751 | exactly one table word goes, the others keep their order, the data stays |
| Store.Data.ArrayInsert | src/shared/json/json.cpp:1511-1533 | the array becomes the sequence with the value inserted, or is unchanged exactly when the size limit is hit |
| Store.Data.ArrayReplace | src/shared/json/json.cpp:1560-1583 | the array becomes the sequence with the item replaced, or is unchanged exactly when the size limit is hit |
| Store.Data.ArrayRemove | src/shared/json/json.cpp:1454-1464 | the array becomes the sequence without the item |
| Store.Data.ObjectInsert | src/shared/json/json.cpp:2490-2526 | the object becomes the one with the key bound to the value, or is unchanged exactly when the size limit is hit |
| Store.Data.ObjectRemove | src/shared/json/json.cpp:2538-2553 | the object becomes the one without the key |
| Store.Data.ArrayRemoveAt | src/shared/json/json.cpp:4745-4751 | the same removal where an array lies inside another container: only its block changes, and it becomes the sequence without the item |
| Store.Data.ObjectRemoveAt | src/shared/json/json.cpp:4745-4751 | the same for an object inside another container |
| Store.Data.ArrayReplaceAt | src/shared/json/json.cpp:1560-1583 | replacement by a value without storage where an array lies inside another container |
| Store.Data.Compact | src/shared/json/json.cpp:4629-4701 | the new buffer holds exactly the copies of what is in use and nothing else, and is no larger; when all payload offsets fit 27 bits, the document is the same and packed: every payload lies where the storage before it in table order ends |
| Store.Data.Clone | src/shared/json/json.cpp:536-555 | the buffer itself exactly when its root is wanted, nobody shares it and there is room; otherwise a copy of just that container with the room asked for |
| Compaction.AllItemsCopied | src/shared/json/json.cpp:4682-4696 | with offsets that fit, the copied array stands for the same items, and the payload of each starts where the storage of those before it ends, without a gap |
| Compaction.AllEntriesCopied | src/shared/json/json.cpp:4662-4681 | with offsets that fit, the copied object stands for the same members, each entry starts where the storage of those before it ends, and its payload right behind it |
| Compaction.CopiesAreReferred | src/shared/json/json.cpp:4662-4696 | every copied payload is referred to where it has been copied if and only if all new payload offsets are below 2^27 |
| Overflow.CompactionBreaksHugeObject | src/shared/json/json.cpp:4671-4675 | a two-member object as the parser lays it out is well-formed, has an offset that does not fit, and is no object any more after compaction |
| Validity.ArrayIsValid | src/shared/json/json.cpp:4799-4809 | the check of an array is the predicate on its table and values |
| Validity.ObjectIsValid | src/shared/json/json.cpp:4775-4797 | the check of an object, with its running last key, is the predicate on every entry and its predecessor |
| Validity.ValueIsValid | src/shared/json/json.cpp:4854-4888 | the check of a value is the predicate on its offset, size and nested container |
| Validity.ContainerAccepted | src/shared/json/json.cpp:4775-4888 | every well-formed container passes the checks for its kind wherever it lies in memory |
| Validity.RepeatedKeyPasses | src/shared/json/json.cpp:4775-4797 | a block with a repeated key passes the checks although it is no object |
| Trust.WellFormedIff | src/shared/json/json.cpp:4775-4888 | a container is well-formed if and only if the checks accept it and the listed conditions hold that they do not look at, wherever it lies in memory |
| Trust.ZeroOffsetNests | src/shared/json/json.cpp:4872-4873 | an item of type array with offset 0 passes the check of values in any array, and leads readers down any number of levels |
| Trust.ItselfIsAccepted | src/shared/json/json.cpp:4799-4809 | a 16-byte array that is its own item passes every check, has more levels than any number, and is no document |
| Binary.SavedIsAccepted | src/shared/json/json.cpp:3403-3432 | what toBinaryData writes for any well-formed root passes the header checks and valid(), and is taken over byte for byte |
| Binary.FromBinaryData | src/shared/json/json.cpp:3403-3432 | a document results exactly when the header checks and, if asked for, valid() accept, and then holds the announced bytes |
| Binary.LoadedIff | src/shared/json/json.cpp:3403-3432 | what has been loaded with validation is a well-formed document if and only if the conditions hold that are not checked |
| Binary.SaveAndLoad | src/shared/json/json.cpp:3522-3528 | writing any well-formed document as binary data and loading it again yields an equal document, with or without validation, whatever garbage edits have left |
| Binary.FileHeaderIff | src/shared/json/json.cpp:3403-3432 | the header checks pass if and only if there are 20 bytes, the first eight are "qbjs" and 1, 0, 0, 0, and the root with its little-endian size is there in full |
| Sample.BinaryForm | src/shared/json/json.cpp:310-382 | the document {"a":[null,true,-2,"xy"]} is these 64 bytes: little-endian words, type codes, offsets, lengths and padding |
| Reader.Utf8Decodes | src/shared/json/json.cpp:4525-4548 | the bytes written for a \u escape decode to its code point by UTF-8 and are as few as can be |
| Reader.FourDigitsValue | src/shared/json/json.cpp:4481-4493 | four hexadecimal digits of either case are read as the number they spell |
| Grammar.NamedEscapes | src/shared/json/json.cpp:4495-4530 | behind a backslash b, f, n, r and t stand for the five control characters, and any other character, a slash, a quote and a backslash among them, for itself |
| Grammar.PiecesRead | src/shared/json/json.cpp:4463-4480 | a string of any plain characters, two-character escapes and \u escapes with digits of either case is read as the bytes they stand for, up to its quote, wherever it is in a text |
| Grammar.SurrogateRefused | src/shared/json/json.cpp:4525-4548 | the \u escape of a half of a surrogate pair is an illegal escape sequence |
| Grammar.UnclosedString | src/shared/json/json.cpp:4561-4621 | a text that ends inside a string is refused as an unterminated one |
| Grammar.NumeralRead | src/shared/json/json.cpp:4371-4457 | every number of the form [minus] int [frac] [exp], written over digit sequences with either e and either sign, is read up to its end when a delimiter follows: as the integer it spells if it has neither part and is below 2^25 in magnitude, otherwise as what strtod makes of the text from its start |
| Syntax.NumeralIsNumber | src/shared/json/json.cpp:4371-4457 | such a number is one for every text around it, if strtod does not depend on what comes behind the delimiter |
| Syntax.DocumentRead | src/shared/json/json.cpp:4020-4078 | every JSON text of an array or object nested at most 1024 deep, with any space between its tokens and around it and with or without a byte order mark, is read as the value it stands for, a later duplicate key winning |
| Acceptance.DocumentParsed | src/shared/json/json.cpp:4020-4078 | nothing else is read: a text that is read as a document is such a text of that document, except that parts of numbers may lack their digits; any character but u may follow a backslash, and control characters may stand in strings |
| Acceptance.NoDocument | src/shared/json/json.cpp:4044-4056 | a text whose first character behind space is neither a bracket nor a brace is refused as an illegal value |
| Acceptance.GarbageBehind | src/shared/json/json.cpp:4059-4063 | a document with anything but space behind it is refused as having garbage at its end, with the position of that |
| Acceptance.Refusals | src/shared/json/json.cpp:4260-4457 | a closing bracket for a value, brackets nested too deep, a number at the end of the text and a misspelled null are refused each with its own error |
| Acceptance.MemberRefusals | src/shared/json/json.cpp:4108-4189 | a missing colon, a missing comma or brace and a missing key are refused each with its own error |
| Parser.Parser.EatSpace | src/shared/json/json.cpp:3980-3993 | skips exactly the four kinds of space |
| Parser.Parser.NextTok | src/shared/json/json.cpp:3995-4014 | consumes and reports one token as the reading does |
| Parser.Parser.ParseEscapeSequence | src/shared/json/json.cpp:4495-4559 | appends exactly the bytes the escape stands for, consuming what the reading consumes |
| Parser.Parser.ParseString | src/shared/json/json.cpp:4561-4621 | quick and escape path alike store exactly the string that is read, length-prefixed and padded to four bytes, behind untouched data |
| Parser.Parser.ParseNumber | src/shared/json/json.cpp:4384-4457 | stores exactly the number that is read (Grammar.NumeralRead says which that is), in the word or as an eight-byte payload, or refuses as the reading does |
| Parser.Parser.ParseValue | src/shared/json/json.cpp:4260-4362 | the word and the bytes appended stand for the value that is read, whatever is in front of them; at most 12 bytes are used for a character; failures agree with the reading in error and position |
| Parser.Parser.ParseArray | src/shared/json/json.cpp:4194-4252 | the block appended is a well-formed array equal to the one that is read, nesting limit included |
| Parser.Parser.ParseObject | src/shared/json/json.cpp:4108-4162 | the block appended is a well-formed object with sorted entries equal to the one that is read, the last of duplicate keys winning |
| Parser.Parser.ParseMember | src/shared/json/json.cpp:4167-4189 | the bytes appended are one complete entry for the member that is read |
| Parser.Parser.ReserveSpace | src/shared/json/json.cpp:622-630 | the buffer grows so that the position stays inside it, keeps what is in it, and its size stays below 2^31 |
| Parser.Parser.Parse | src/shared/json/json.cpp:4020-4078 | a document results exactly when the reading succeeds and equals it; otherwise error and offset are those of the reading, or the document is too large, which only long texts can be |
| Parser.FromJson | src/shared/json/json.cpp:3493-3497 | the same for fromJson, and every document it yields passes valid() |
| Printer.EscapedString | src/shared/json/json.cpp:3698-3745 | the loop writes the escaped form of every byte in order |
| Printer.ValueToJson | src/shared/json/json.cpp:3747-3792 | appends the text of the value that a word of a well-formed container stands for |
| Printer.ArrayContentToJson | src/shared/json/json.cpp:3794-3814 | appends the text of all items in order, separated and indented |
| Printer.ObjectContentToJson | src/shared/json/json.cpp:3816-3841 | appends the text of all members in table order, separated and indented |
| Printer.ToJson | src/shared/json/json.cpp:3465-3478 | the text produced is the text of the document as a value, whose layout and reading the laws below fix |
| Printer.EscapedForms | src/shared/json/json.cpp:3698-3745 | byte by byte how a string is written: quote and backslash behind a backslash, five control characters by their letters, the others below 0x20 as four digits, everything else as it is |
| Lines.DocumentIsIndented | src/shared/json/json.cpp:3747-3860 | read byte by byte, indented text of any document has a line for every item, member and closing bracket, with four blanks for each bracket open around it, no other space outside of strings than the one behind a colon, and a line feed at its end |
| Lines.DocumentIsTight | src/shared/json/json.cpp:3747-3860 | compact text of any document has no space or line feed outside of strings |
| RoundTrip.StringReadsBack | src/shared/json/json.cpp:3698-3745 | reading the escaped form of any byte string up to its closing quote gives the string back and consumes exactly that |
| RoundTrip.SmallIntegerFaithful | src/shared/json/json.cpp:4425-4437 | the decimal text of every integer of magnitude below 2^25 is read as that integer wherever a delimiter follows |
| RoundTrip.LargeIntegerFaithful | src/shared/json/json.cpp:4439-4453 | the same for larger integers when strtod reads their digits as the double they came from |
| RoundTrip.ValueReadsBack | src/shared/json/json.cpp:3747-3792 | the text of any value nested within the limit is read as that value |
| RoundTrip.DocumentReadsBack | src/shared/json/json.cpp:3747-3860 | the text of any document nested at most 1024 deep is read as that document, compact or indented |
| RoundTrip.ContentsSorted | src/shared/json/json.cpp:310-320 | everything the binary layout can stand for has its members in order at every level |
| RoundTrip.PrintAndParse | src/shared/json/json.cpp:3493-3497 | fromJson of toJson is an equal document in both formats, unless the size limit is exceeded, which short texts never do |
| RoundTrip.PrintAndParsePlain | src/shared/json/json.cpp:3465-3497 | with integers below 2^25 as the only numbers no condition is left on the C library but that sprintf prints such an integer as its decimal digits, which the model of the printer builds in |
| Handles.Handle.OnRoot | src/shared/json/json.cpp:1280-1286 | a handle on a buffer just parsed or loaded shows its root and is the one handle counted |
| Handles.Handle.ShownIsDocument | src/shared/json/json.cpp:4703-4715 | whatever edits have led to, a handle at a root shows its document if and only if the tag is right, and then it passes valid() and is accepted as binary data |
| Handles.Handle.Copy | src/shared/json/json.cpp:1303-1309 | the copy shares the buffer, the count goes up by one, nobody's value changes |
| Handles.Handle.Assign | src/shared/json/json.cpp:1314-1330 | the handle shows what the other one shows, both counts are right again, nobody else's value changes |
| Handles.Handle.Destroy | src/shared/json/json.cpp:1291-1295 | the count goes down by one, and a buffer that is deleted has no live handle left on it |
| Handles.Handle.Detach | src/shared/json/json.cpp:2196-2213 | the handle shows the same value alone on its buffer, at the root with the room asked for, or where it was if it was alone and asked for none; tag and garbage count come along, all counts stay right and no other handle notices |
| Handles.Handle.Compact | src/shared/json/json.cpp:2218-2226 | the value stays, no other handle notices, and a root with garbage ends up without any; a handle alone inside a container is moved to the root |
| Handles.Handle.CompactOuter | src/shared/json/json.cpp:2223-2225 | a handle moved to the compacted root shows the document if and only if that is of its kind |
| Handles.Handle.CompactIfDue | src/shared/json/json.cpp:1461-1463 | when more than 32 edits and at least half the number of entries have left garbage, it is removed, and otherwise nothing is touched; the values of handles at roots and of all others stay |
| Handles.Handle.RemoveAt | src/shared/json/json.cpp:1454-1464 | the handle shows the sequence without the item, or the same when there is none, also where it is alone inside a container; at a root a compaction that is due leaves no garbage; only if one is due inside a container the handle ends up at the root around the edit; every other handle shows what it did |
| Handles.Handle.TakeAt | src/shared/json/json.cpp:1494-1502 | the item taken is the one that was there, and a container taken stays readable through its own handle |
| Handles.Handle.ArrayInsert | src/shared/json/json.cpp:1511-1533 | the handle shows the sequence with the value inserted, for null, truth values, numbers, strings and containers each said outright, or the same when the size limit is hit; every other handle shows what it did, even one stored into its own container |
| Handles.Handle.ArrayReplace | src/shared/json/json.cpp:1560-1587 | the same for replacing an item, also in place where the handle is alone inside a container; a compaction that is due happens |
| Handles.Handle.ObjectInsert | src/shared/json/json.cpp:2490-2532 | the handle shows the map with the key bound to the value, said outright by kinds, the key removed for Undefined, or the same when the size limit is hit; a compaction that is due happens; every other handle shows what it did |
| Handles.Handle.InsertThenTake | src/shared/json/json.cpp:1494-1533 | a scalar JSON value, whichever it is, inserted into an array and taken out again is that value, and the array is what it was |
| Handles.Handle.Remove | src/shared/json/json.cpp:2538-2554 | the handle shows the map without the key, with compaction and the same exception as for removeAt; every other handle shows what it did |
| Handles.Handle.Take | src/shared/json/json.cpp:2564-2582 | the value taken is the one the key had, the key is gone, and a container taken stays readable |
| Handles.Handle.CompactedCopy | src/shared/json/json.cpp:4907-4915 | a container about to be stored is compacted in a copy of its own, to no more than its size, and its owner does not notice |
| Versions.CompareVersions | src/lib/pkgconfig/pkgconfig.cpp:110-136 | the result is the comparison of the sequences of components, missing components counting as zero |
| Versions.CompareAtDifference | src/lib/pkgconfig/pkgconfig.cpp:110-136 | the comparison is decided by the first component that differs |
| Versions.EqualUpToZeros | src/lib/pkgconfig/pkgconfig.cpp:110-136 | two versions compare equal if and only if they agree in all components padded with zeros |
| Versions.CompareReversed | src/lib/pkgconfig/pkgconfig.cpp:110-136 | exchanging the versions changes the sign |
| Versions.CompareTransitive | src/lib/pkgconfig/pkgconfig.cpp:110-136 | the comparison is transitive, strictly when either step is strict |
| Versions.DecimalComponent | src/lib/pkgconfig/pkgconfig.cpp:113-125 | a component in decimal digits counts as the number it spells, below the size_t limit |
| Versions.DottedComponents | src/lib/pkgconfig/pkgconfig.cpp:110-136 | a version written as decimal numbers with dots between them has those numbers for its components |
| Versions.WrittenVersions | src/lib/pkgconfig/pkgconfig.cpp:110-150 | for written versions every operator says what the first differing number says, and all zeros behind count as equal |
| Versions.VersionTest | src/lib/pkgconfig/pkgconfig.cpp:138-150 | every comparison operator decides by the sign of the comparison |
| Versions.Trichotomy | src/lib/pkgconfig/pkgconfig.cpp:138-150 | of less, equal and greater exactly one holds, and the other operators are their complements |
| Versions.RequirementsChain | src/lib/pkgconfig/pkgconfig.cpp:138-150 | requirements of "at most" and "at least" chain |
| Merge.MergeDependencies | src/lib/pkgconfig/pkgconfig.cpp:336-444 | ends for every graph, cyclic ones included, with a result for every package; without cycles every result is that of the plain recursive definition |
| Merge.Merger.Visit | src/lib/pkgconfig/pkgconfig.cpp:349-433 | the memoised search never touches an entry that is there already, and without cycles everything it has finished is what the definition says |
| Merge.BrokenIff | src/lib/pkgconfig/pkgconfig.cpp:388-411 | a package is broken if and only if it was to begin with or some requirement is missing, broken or fails its version test |
| Merge.RequirementsThatCount | src/lib/pkgconfig/pkgconfig.cpp:397-399 | private requirements count in static mode only, behind the public ones |
| Merge.FirstUnmet | src/lib/pkgconfig/pkgconfig.cpp:388-418 | the failure of a package is that of its first unmet requirement: missing, broken, or of the wrong version |
| Merge.RequirementIsMet | src/lib/pkgconfig/pkgconfig.cpp:405-411 | a requirement on a usable package is met if and only if the version the package has stands to the required one as the operator says, number by number in the dotted versions |
| Merge.SpecLists | src/lib/pkgconfig/pkgconfig.cpp:405-411 | the dependencies of a good package are exactly the packages it reaches, once each, each behind everything it requires, itself last |
| Merge.FlagsConserved | src/lib/pkgconfig/pkgconfig.cpp:363-420 | flags of kinds LinkerFlag and CompilerFlag come through in exactly the order and number in which the dependencies have them, and every flag of the other nine kinds that occurs exactly once over libs and cflags together |
| Merge.FlagInFirstSlot | src/lib/pkgconfig/pkgconfig.cpp:371-420 | each of those other flags is in the list in which the first package that has it has it, libs before cflags |
| Merge.FlagsInOrder | src/lib/pkgconfig/pkgconfig.cpp:371-420 | in each list those other flags are in the order of their first occurrences |
| Merge.Merger.MergeFlags | src/lib/pkgconfig/pkgconfig.cpp:371-380 | one call lets through what has not been seen and remembers it |
| Merge.HashOrder | src/lib/pkgconfig/pkgconfig.cpp:346-347 | with unique names the result does not depend on the order of the packages |
| ModuleList.SplitModuleList | src/lib/pkgconfig/pcparser.cpp:271-367 | the modules are those of the plain definition by positions: each from the first character that is no separator up to the separator that ends its name, or its version when an operator follows behind space |
| ModuleList.ModulesAreCut | src/lib/pkgconfig/pcparser.cpp:271-367 | the line is its modules with separators, at least one, between them; each is a name without separators, alone or with space, an operator, one character, space, one character and more that are no separators; only the last can be empty |
| ModuleList.TextIsKept | src/lib/pkgconfig/pcparser.cpp:271-367 | the modules of a line hold all its characters but separators, in order |
| ModuleList.ListReadsBack | src/lib/pkgconfig/pcparser.cpp:271-367 | a list written as names, some with one of the six operators and a version, separated by commas and space, is split into exactly what it was written from |
| ModuleList.NextState | src/lib/pkgconfig/pcparser.cpp:294-344 | in one step of the state machine the module ends, or it will end where it would have ended before the step |
| Packets.SessionPacket.ParseInput | src/app/qbs/sessionpacket.cpp:56-80 | one call agrees with the first header and packet of the stream and never asks for a negative number of bytes |
| Packets.StreamGrows | src/app/qbs/sessionpacket.cpp:56-80 | the packets of a stream that grows are those so far and those of the rest with the new data |
| Packets.FramesReadBack | src/app/qbs/sessionpacket.cpp:92-97 | any sequence of frames is read as exactly the payloads framed, with nothing left over |
| Packets.FrameIsRead | src/app/qbs/sessionpacket.cpp:92-97 | "qbsmsg:", the size in decimal digits, a line feed and the payload, byte by byte, are read as that payload |
| Packets.HeaderIs | src/app/qbs/sessionpacket.cpp:60-75 | the header of a stream is the first "qbsmsg:" and the number up to the next line feed, whatever is in front; no number or a negative one is an error |
| Packets.SessionPacketReader.DataAvailable | src/app/qbs/sessionpacketreader.cpp:66-80 | after every chunk the packets emitted and whether an error was reported depend only on all bytes received |
| Packets.Feed | src/app/qbs/sessionpacketreader.cpp:66-80 | however a stream is cut into chunks, the packets of the whole stream are emitted |
| Session.Session.SetupProject | src/app/qbs/session.cpp:249-274 | a resolve request is started, refused, or made to wait exactly while a resolve job is being cancelled; one that waited before is superseded |
| Session.Session.StartNormalJob | src/app/qbs/session.cpp:302-390 | any other request is started exactly when there is no job and the last thing that happened to the project, over the whole run, is a resolve job that ended with a valid one; it is refused otherwise |
| Session.Session.JobEnds | src/app/qbs/session.cpp:275-299 | a job the session listens to is answered once, or superseded by the waiting request, whose job starts; the project changes exactly when a resolve job is answered; decided requests stay decided |
| Session.Session.CancelCurrentJob | src/app/qbs/session.cpp:611-618 | only a waiting request is dropped |
| Session.Session.ReleaseProject | src/app/qbs/session.cpp:591-609 | with a valid project the running and the waiting request are dropped, no job is listened to any more and there is no project; without one nothing changes |
| Session.Session.QuitSession | src/app/qbs/session.cpp:732-743 | nothing undecided is left |
| Session.RequestsConserved | src/app/qbs/session.cpp:249-300 | of every kind, requests received are replies sent plus running plus waiting plus superseded plus dropped by cancel, release or quit |
| Session.NothingIsForgotten | src/app/qbs/session.cpp:275-299 | with no job left every request has been decided, and every answered one exactly once |
| Launcher.Process.Cancel | src/libexec/qbs_processlauncher/launchersockethandler.cpp:63-80 | kill follows only terminate, failure to stop only kill, and each step arms the timer |
| Launcher.LauncherSocketHandler.HandleStartPacket | src/libexec/qbs_processlauncher/launchersockethandler.cpp:225-240 | a start is acted on exactly when the process is not running, and finds neither a stop procedure nor a timer of an earlier run; for a running one nothing changes |
| Launcher.LauncherSocketHandler.HandleStopPacket | src/libexec/qbs_processlauncher/launchersockethandler.cpp:242-256 | for a running process terminate comes first, kill after that, and giving up last, each step exactly; nothing for any other |
| Launcher.LauncherSocketHandler.TimerFires | src/libexec/qbs_processlauncher/launchersockethandler.cpp:51-80 | a stop timer of a process in the table finds it running and makes the next step; one of a process given up is not heard of |
| Launcher.LauncherSocketHandler.ProcessEnds | src/libexec/qbs_processlauncher/launchersockethandler.cpp:195-207 | one finished packet, and nothing of a stop procedure is left; every accepted start has one terminal packet or a running process |
| Launcher.LauncherSocketHandler.ProcessFailsToStart | src/libexec/qbs_processlauncher/launchersockethandler.cpp:183-193 | one error packet, under the same invariant |
| Launcher.LauncherSocketHandler.HandleStopFailure | src/libexec/qbs_processlauncher/launchersockethandler.cpp:209-223 | the process leaves the table with one terminal packet and is not listened to any more |
| Launcher.LauncherSocketHandler.HandleShutdownPacket | src/libexec/qbs_processlauncher/launchersockethandler.cpp:258-270 | exactly the running processes are terminated, and no process is listened to afterwards |

## Left out

- Store.Data.Compact: roots that are not well-formed as what their tag says, where the original reads whatever it finds.
- Handles.Handle.OnRoot: documents of 2^30 bytes and more, for which the doubled `int` sizes of `clone` overflow.
- Handles.Handle.Compact: garbage on a root that is tagged as the other kind or has offsets that do not fit 27 bits, as under Findings (`Sound`, `CanCompact`).
- Handles.Handle.RemoveAt: the same, only if the removal makes a compaction due (`CanRemove`).
- Handles.Handle.Remove: the same.
- Handles.Handle.TakeAt: the same.
- Handles.Handle.Take: the same.
- Handles.Handle.ArrayInsert: the same for a container that is stored while there is garbage in its buffer (`CanBeStored`).
- Handles.Handle.ArrayReplace: the same (`CanReplace`); and a value without storage, put through a handle that is alone inside a container when a compaction is due, which moves the handle to the root as `RemoveAt` does.
- Handles.Handle.ObjectInsert: the same (`CanInsert`), and keys and strings of 2^31 bytes and more with the overflow of `int` sizes they cause.
- Parser.Parser.Parse: texts longer than `MAX_TEXT`, where the `int` sizes of the parser may overflow.
- Parser.FromJson: the same.
- Parser.Parser.ParseNumber: how `strtod` converts a number; it is a parameter that gets the rest of the text, as in the C library.
- RoundTrip.PrintAndParse: that `sprintf` with 17 digits and `strtod` are inverse on doubles that are not small integers is a condition (`Faithful`), not a result; `Syntax.NumeralIsNumber` says what of it is the parser's part. Non-finite doubles are printed as null and do not come back.
- Lines.DocumentIsIndented: that `sprintf` prints numbers without space, quotes, brackets, commas and colons is a condition (`WritesWords`).
- Lines.DocumentIsTight: the same.
- Acceptance.DocumentParsed: which of the numbers that lack digits are accepted is up to `strtod`, and is not narrowed down.
- Validity.ContainerAccepted: reads outside the memory count as rejected, where the original would read beyond its buffer.
- Store.Data.ReserveSpace: more than one table word at a time, because every caller asks for one.
- Store.Data.RemoveItem: the same.
- Merge.MergeDependencies: what the result is for graphs with cycles, beyond the search ending with one entry a package; there a package that is still being worked on counts as one without a version. Duplicate package names.
- Packets.Frame: base64 and the JSON inside a packet; payloads are handed on as they are.
- Session.Session.StartNormalJob: the requests for files, run environments and generated files, which are answered at once, and what replies contain.
- Launcher.LauncherSocketHandler.HandleShutdownPacket: the loss of the socket, which ends the launcher without it.
- JSON iterators, `JsonValueRef`, `erase`, `keys()`, `JsonDocument` handles and `fromRawData`.
- Failure of memory allocation, and the release of memory.
- `.pc` files as such: lines, variables, sysroot and system path filtering, and the parsing of a module into name, operator and version.
- Everything else in qbs: language front end, build graph, tools and user interface.
