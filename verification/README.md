# structio, modelled in Dafny

structio is a Rust library that reads and writes JSON and BEVE, a self-describing binary
format. This project models the parts of it whose correctness is not evident from reading one
function, and proves what the repository says of them.

- **The ordered map** (`RobinHood`, `HashTables`, `OrderedMaps`; `AssocLists`, `MapScripts`). An
  insertion-ordered vector with a robin hood hash table over it, as classes with an array of
  buckets, refining an association list, which in turn agrees with a reference written as a map
  and an order. The hash function is a parameter and may collide as it likes.
- **The BEVE walks** (`Headers`, `Wire`, `Walks`, `Grammar`, `WalkProofs`, `WalkTheorems`,
  `WalkShift`, `WalkDepth`, `WalkChain`; `Readers`, `Transcoder`, `Trees`, `Sequences`, `PackedBools`). One grammar
  written top down, one walk in four modes proved to accept exactly its encodings, and the cursor
  class whose methods skip, validate, transcode and build, each proved to be the walk in its mode.
- **Numbers, text and trees** (`Floats`, `Utf8`, `NumberTheorems`, `TreeTheorems`, `Writers`).
  What number a payload is, what text is valid, what tree each form reads as, and writing a tree
  and reading it back.
- **Declared types** (`Typed`, `LateTags`, `LateTagTheorems`; `Meanings`, `MeaningTheorems`,
  `TypedRoundTrip`). Reading structs and internally tagged enums with a stack of deferred runs,
  against a reading that has no stack, and that against a meaning that has no reading: what each
  field holds, and that what spells a value reads as it, a tag standing anywhere.
- **Pointers** (`Pointers`, `Seeks`, `SeekTheorems`). Seeking a JSON Pointer in a document against
  looking it up in the tree the document reads as.
- **The perfect-hash ladder** (`KeyHashes`, `KeyMaps`). Building the table for a list of keys and
  the two lookups that must find each of them.
- **The stream** (`Windows`; `Scanners`, `ScannerTheorems`, `Documents`). The window's compaction,
  limit and failure over any framer that simulates itself on a longer buffer, and the splitter of
  whole BEVE documents, which is such a framer: a walk that stops anywhere and resumes, proved to
  answer as the walk that sees everything.
- **Word scans and names** (`Swar`; `Cases`, `CaseTheorems`), and the arithmetic under all of it (`Bits`).

## How it is put together

Where the source updates a field or fills a buffer, the model is a class or a method over that
state. Each such method is proved against a function of the document or of the old contents, and
the theorems are about those functions. `Out` in `Wire` is the answer of a step over a document: a
value or an error code, and where the cursor stands after either.

Machine widths appear where they matter. A bucket's position and hash are `u32`; the table's mask
is truncated to `u32` and its sums wrap, as a release build has them, so a table of more than 2^32
buckets is probed in its first 2^32 only, and the map stops indexing before that is too few
(`Ring`, `LoadBelowRing`). Sizes on the wire are below 2^62, and a product of a count and a width
that would not fit 64 bits is an early end of input, as it is there. Words in `Swar` and
`KeyHashes` wrap at 2^64.

## What the code does that its comments do not say

- The test of filling (src/map.rs:1794-1821) adds the number of entries after each rebuild and
  compares with twice the number inserted, which it does for 4,000. For 385 the sum is 771, one
  past 770 (`PastTwiceAt385`), and `CountsPastTwice` says for exactly which numbers it is past: the
  entry whose insertion doubles the table is counted, though it is placed once and after. What
  twice the entries does bound, for every number of them, is the buckets placed in building and
  doubling tables, counted at each call of `Place`, and that is what `FillIsLinear` and `Extend`
  state.
- Reading a run of complex numbers into a tree gives its pairs, but reading it as a sequence of
  trees fails on the first, an element's header being one no tree is read from (`OnePair`).
  `SeqIsTree` states exactly when the two readings agree.
- `fill` has no test for a failed window (src/stream.rs:249-290), where `extend` has one, so the
  buffer of a failed window grows by exactly what the read delivers, and nothing reads it. Nobody
  asks: a fill follows only a `Need`, which a failed window never answers, and `Pull` is that loop.
- A reader and a tree part on some pointer tokens, and `AlikeIffSpelled` says exactly which: `01`
  in an array, which only the tree takes; `+5` at an integer key 5, which only the reader takes; and
  a stray `~` spelling a string key that is there, which the reader refuses. A token such as `007`
  names the string key `007` to both.
- The splitter is said to charge depth exactly as `skip_value` does. At a matrix it takes the level
  before the layout byte (src/beve/stream/split.rs:343-346) where the reader takes the byte first,
  so an input that ends just past the header of a matrix at the depth limit is ended early to the
  one and too deep to the other (`StreamRefusesFirst`). `AdvanceIsFramed` proves there is no other
  difference.

## Model

Paths are relative to the root of the repository.

| member | source | states |
|---|---|---|
| `OrderedMaps.OrderedMap.Replay` | src/map.rs:588-799 | any script of insert, extend, entry, remove, retain, sort, clear and get keeps the map valid (keys distinct, a table exactly at the sizes that call for one, describing every entry once with its current hash) and leaves and answers what the association list would |
| `MapScripts.RunAgrees` | src/map.rs:2076-2156 | over any script the association list agrees with a separately written reference, a map of contents beside an order of keys, in every answer and in the state it ends in |
| `MapScripts.ApplyAgrees` | src/map.rs:2076-2156 | the same for one operation from any state with distinct keys |
| `AssocLists.RemovedAtRefines` | src/map.rs:734-753 | removing an entry takes its key from the contents and from the order and nothing else |
| `OrderedMaps.OrderedMap.IndexIsConsistent` | src/map.rs:1440-1519 | all the test helper asserts of the table: there is one only past eight entries and none is missing, its size is a power of two of at least sixteen whose load limit holds the entries, and bucket by bucket an occupied one points at a live entry with its current hash, is reached by its probe past buckets at least as far from home, shares its entry with no other, and every entry has one |
| `OrderedMaps.OrderedMap.FindEach` | src/map.rs:1523-1532 | a probe for every key finds it where it is |
| `RobinHood.IndexConsistent` | src/map.rs:1482-1519 | the bucket-by-bucket part, for any ordered ring that describes the entries |
| `RobinHood.OrderedIffReachable` | src/map.rs:1445-1451 | the local distance ordering holds exactly when every occupied bucket is reachable by its own probe |
| `RobinHood.NeverALap` | src/map.rs:310-312 | with a vacancy anywhere no entry is a whole lap from home |
| `RobinHood.ProbeGoesOn` | src/map.rs:331-348 | a probe that has met only fuller buckets has not gone round |
| `RobinHood.OneBucketEach` | src/map.rs:1487-1491 | no two buckets point at one entry |
| `RobinHood.FillStep` | src/map.rs:359-379 | a displaced bucket that comes to a vacancy fills it, keeping the order and the multiset of buckets |
| `RobinHood.SwapStep` | src/map.rs:359-379 | taking the place of a bucket nearer home keeps the order, and the bucket taken up in its stead can go on |
| `RobinHood.PassStep` | src/map.rs:359-379 | passing a bucket at least as far from home loses nothing |
| `RobinHood.PullStep` | src/map.rs:411-424 | shifting one bucket back keeps the order everywhere but at the hole, which moves on |
| `RobinHood.VacateStep` | src/map.rs:411-424 | the hole may be vacated once the next bucket is vacant or home, and the table is ordered again |
| `RobinHood.DescribesRemoval` | src/map.rs:734-753 | removing an entry, its bucket and one from every later position leaves exactly the buckets of the entries that remain |
| `RobinHood.LoweringKeepsOrder` | src/map.rs:433-439 | renumbering positions moves no bucket and disturbs no distance |
| `RobinHood.DescribesAnyOrder` | src/map.rs:470-478 | buckets carried over in whatever order describe the same entries, with no key hashed |
| `HashTables.HashTable.Find` | src/map.rs:331-348 | position p exactly when entry p holds the key, for any hash function; the early exit never misses a key and the probe ends |
| `HashTables.MissIsFinal` | src/map.rs:341-345 | a bucket nearer home than the probe has gone means the key is not in the map |
| `HashTables.HashTable.BucketOf` | src/map.rs:389-399 | the bucket holding the entry at a position |
| `HashTables.HashTable.Place` | src/map.rs:359-379 | through any chain of displacements the table stays ordered and gains exactly the bucket placed |
| `HashTables.HashTable.Erase` | src/map.rs:411-424 | backward shift, across the end of the table too, keeps the order and loses exactly the bucket erased |
| `HashTables.HashTable.ShiftDownAbove` | src/map.rs:433-439 | every position past the removed one goes down by one and nothing else changes |
| `HashTables.HashTable.Forget` | src/map.rs:734-753 | erase and renumber together: the table describes the entries without the removed one |
| `HashTables.HashTable.Rebuild` | src/map.rs:449-460 | a table fitted to the entries that describes them |
| `HashTables.HashTable.Build` | src/map.rs:284-290 | the same, new |
| `HashTables.HashTable.Grow` | src/map.rs:470-478 | doubling describes the same entries from the hashes already stored |
| `HashTables.BucketsFor` | src/map.rs:169-175 | the smallest table whose load limit admits that many entries |
| `HashTables.MaskedIsCyclic` | src/map.rs:294-317 | masking a wrapped 32-bit sum or difference is the cyclic step, for any power-of-two table, its mask truncated to 32 bits included |
| `HashTables.LoadBelowRing` | src/map.rs:158-160 | the load limit leaves a reachable bucket vacant, which is why probes end |
| `OrderedMaps.OrderedMap.Locate` | src/map.rs:588-600 | the position of a key, or its absence with its hash, by scan or by probe alike |
| `OrderedMaps.OrderedMap.Get` | src/map.rs:604-615 | the value at the key, if there is one |
| `OrderedMaps.OrderedMap.Equals` | src/map.rs:927-932 | equal exactly when the two hold the same contents, whatever the order |
| `OrderedMaps.OrderedMap.Insert` | src/map.rs:657-665 | a duplicate keeps its place and takes the value, a new key goes last; the old value is returned |
| `OrderedMaps.OrderedMap.PushNew` | src/map.rs:674-704 | appends a new key, and what that moves in the table |
| `OrderedMaps.OrderedMap.Entry` | src/map.rs:832-1118 | an entry by what is done with it: occupied, its value left, changed or replaced in place or the entry removed; vacant, a value inserted last or nothing; with the value it then holds or the one taken out |
| `OrderedMaps.OrderedMap.UseOccupied` | src/map.rs:1043-1086 | an occupied entry changed or replaced keeps its place; removed, the others keep theirs |
| `OrderedMaps.OrderedMap.Extend` | src/map.rs:963-967 | each pair inserted in turn; from empty, no more than twice the final number of entries are moved by all the tables built |
| `OrderedMaps.OrderedMap.RemoveAt` | src/map.rs:734-753 | the entry is gone, the others keep their order, and the index describes them |
| `OrderedMaps.OrderedMap.Remove` | src/map.rs:712-720 | the key is gone if it was there and its value is returned |
| `OrderedMaps.OrderedMap.Retain` | src/map.rs:777-787 | exactly the entries kept, in order, with their new values |
| `OrderedMaps.OrderedMap.SortKeys` | src/map.rs:794-799 | the same entries, every key before the next: the shorter where it begins the longer, and else the one with the lesser byte where they first part; indexed again |
| `AssocLists.KeyLessIsPrecedes` | src/map.rs:794-799 | the comparison it sorts with is that order |
| `AssocLists.SortedIsInOrder` | src/map.rs:794-799 | sorting a list of distinct keys permutes it into that order |
| `OrderedMaps.OrderedMap.Reindex` | src/map.rs:765-774 | a table exactly when the size calls for one |
| `OrderedMaps.OrderedMap.Clear` | src/map.rs:577-580 | no entries and no table |
| `OrderedMaps.FillIsLinear` | src/map.rs:157-175 | a filled map has placed at most two buckets per entry in building and doubling its tables |
| `OrderedMaps.FillingCounts` | src/map.rs:1794-1821 | what the test of filling adds up, for any number of entries: after k doublings there are 16 * 2^k buckets, k + 1 rebuilds and a sum of 12 * 2^k - 3 + k |
| `OrderedMaps.CountsPastTwice` | src/map.rs:1794-1821 | that sum is past twice the entries exactly when fewer than half of k - 3 entries have come since the table last doubled was full; the rebuilds are within the bound tested |
| `OrderedMaps.PastTwiceAt385` | src/map.rs:1794-1821 | 385 entries are the fewest it is past twice of |
| `OrderedMaps.FillStays` | src/map.rs:674-704 | each insertion keeps the count of buckets placed by rebuilding three below the load limit of the table there is |
| `AssocLists.SortedUnique` | src/map.rs:794-799 | a sorted arrangement of given entries with distinct keys is unique, so any sort is this one |
| `Headers.SizeRoundTrip` | src/beve/header.rs:320-377 | every size up to 2^62 - 1 decodes from its encoding to itself, with anything before it and after it |
| `Headers.SizeBytesShortest` | src/beve/header.rs:298-308 | no byte string that decodes to a size is shorter than the one written for it |
| `Headers.SizeBytesStates` | src/beve/header.rs:320-341 | what is written is a size field stating that size |
| `Headers.EncodeSize` | src/beve/header.rs:320-332 | writes exactly the shortest field and touches nothing past it |
| `Headers.DecodeSize` | src/beve/header.rs:361-377 | succeeds exactly when the data holds a whole field, and otherwise the input has ended |
| `Headers.NextByteAbove` | src/beve/header.rs:361-377 | each byte shifted to its place shares no bit with those gathered before it |
| `Headers.KeyRoundTrip` | src/beve/header.rs:385-415 | reading a size and that many bytes recovers a key and ends where it does |
| `Headers.EncodeKey` | src/beve/header.rs:395-415 | fills the buffer with the key and its size |
| `WalkTheorems.WalkIffEncoding` | src/beve/reader.rs:1902-2036 | skipping, validating, transcoding or building takes a tree and stops at a byte exactly when the bytes up to it are that tree's encoding, the mode accepts it, and starting depth plus nesting is at most 256, a typed array costing one level and a complex array none |
| `WalkTheorems.ExtentIsLocal` | src/beve/reader.rs:368-398 | the same bytes anywhere, whatever follows, are the same value with the same extent |
| `WalkTheorems.PrefixFree` | src/beve/reader.rs:1918-1971 | no value's encoding begins another's, and no two values share one |
| `WalkTheorems.CutAnywhere` | src/beve/reader.rs:368-398 | a document cut inside a value always ends early and never fails otherwise; cut past it, nothing changes; and an error is placed just past the last byte that decides it, a document cut there or later failing alike and one cut before ending early |
| `WalkDepth.FitsOrTooDeep` | src/beve/reader.rs:405-411 | a value a mode takes is walked if its nesting fits and is refused for its depth, and for nothing else, if it does not |
| `WalkShift.ShiftValue` | src/beve/reader.rs:1902-2036 | bytes put before a document move every position, of a failure too, and change nothing else |
| `WalkChain.Chain` | src/value.rs:1009-1059 | what builds a tree transcodes, what transcodes validates, what validates skips, each ending at one byte with one value |
| `WalkChain.StricterValue` | src/transcode.rs:217-248 | the next stricter walk answers alike, errors included, except where it refuses for a reason of its own |
| `WalkChain.TranscodesIffPlain` | src/transcode.rs:217-478 | a validated value transcodes exactly when it has no type tag, no 128-bit float to decode and only defined matrix layouts |
| `Readers.Reader.TakeHead` | src/beve/reader.rs:357-364 | an installed header is taken before any byte is read, and is gone |
| `Readers.Reader.Rewind` | src/beve/reader.rs:312-322 | winding back puts an installed header back on its element and takes it away anywhere else |
| `Readers.Reader.Install` | src/beve/reader.rs:480-483 | the header and where its value begins are recorded together |
| `Readers.Reader.Size` | src/beve/reader.rs:387-398 | a size, and where it ends |
| `Readers.Reader.Enter` | src/beve/reader.rs:405-411 | a level if there is one below 256 |
| `Readers.Reader.TakeTypedHead` | src/beve/reader.rs:607-651 | the array form, with a packed payload present and its padding clear |
| `Readers.Reader.TakeAlignedHead` | src/beve/reader.rs:528-539 | an aligned array's element header and count |
| `Readers.Reader.TakeComplexHead` | src/beve/reader.rs:665-680 | the class, the width and how many pairs |
| `Readers.Reader.SkipValue` | src/beve/reader.rs:1874-1876 | ends where the skipping walk does, from a header of its own or an installed one, with its error if it fails, and gives the depth back |
| `Readers.Reader.ValidateValue` | src/beve/reader.rs:1884-1886 | the same for the validating walk |
| `Utf8.ValidIffScalars` | src/beve/reader.rs:1976-1983 | the text that walk accepts is exactly the bytes, by section 3 of RFC 3629, of some list of code points none of which is half of a surrogate pair |
| `Utf8.OneList` | src/beve/reader.rs:909-913 | and of only one |
| `Readers.Reader.Step` | src/beve/reader.rs:1902-1916 | both walks, from a header read or installed, the synthetic complex element included |
| `Readers.Reader.SkipBody` | src/beve/reader.rs:1918-1971 | every kind of value, depth restored on success and failure |
| `Readers.Reader.SkipTyped` | src/beve/reader.rs:1986-2000 | a typed array by its form |
| `Readers.Reader.SkipExtension` | src/beve/reader.rs:2006-2036 | type tags, matrices and complex values, and what is refused |
| `Transcoder.Body` | src/transcode.rs:217-248 | answers as the transcoding walk does, with its cursor and depth |
| `Transcoder.Object` | src/transcode.rs:382-410 | the same for an object |
| `Transcoder.GenericArray` | src/transcode.rs:413-425 | the same for a generic array |
| `Transcoder.TypedArray` | src/transcode.rs:434-478 | the same for a typed array |
| `Transcoder.Complex` | src/transcode.rs:269-292 | the same for a complex value |
| `Transcoder.Matrix` | src/transcode.rs:322-338 | the same for a matrix |
| `Transcoder.Extension` | src/transcode.rs:255-266 | the same for an extension |
| `Trees.Read` | src/value.rs:1002-1007 | answers as the building walk does, from a header of its own or an installed one, and returns the tree of what was walked |
| `Trees.ReadBody` | src/value.rs:1015-1059 | the same from a header in hand |
| `Trees.ReadNumber` | src/value.rs:1063-1086 | the number, or out of range exactly when a tree has no form for it |
| `NumberTheorems.IntegerRoundTrip` | src/value.rs:1077-1083 | every integer a signed or unsigned header has room for reads from its two's-complement bytes, little end first, as itself, or is out of range exactly when 64 bits do not hold it; as a key it is its decimal digits |
| `NumberTheorems.SignExtendIs` | src/beve/reader.rs:2496-2504 | the one number congruent to the payload modulo 256^width in the signed range of that width |
| `NumberTheorems.IntegerDocument` | src/value.rs:1022-1027 | the same for a number's document with anything around it |
| `NumberTheorems.IntegersDocument` | src/value.rs:1119-1152 | a typed array of integers of any width, plain or aligned and whichever size field counts it, reads as those integers |
| `NumberTheorems.FloatReads` | src/value.rs:1066-1076 | a float of any width up to 64 bits reads as a double that is the same number, sign of zero included, if it is finite, and is out of range exactly when it is not |
| `NumberTheorems.WidthIsPower` | src/beve/header.rs:244-268 | an element of width code c has 2^c bytes, but for the brain float; the codes above 4 have no width, and the 128-bit float is the one of 16 bytes |
| `NumberTheorems.KeyWidths` | src/beve/reader.rs:2349-2358 | an object has string keys under one header only and integer keys of five widths |
| `Floats.WideningKeeps` | src/beve/reader.rs:2512-2517 | widening the bits of any number, subnormals, zeros, infinities and no numbers included, to a format with room for it leaves its value what it was |
| `Floats.F16ToF32` | src/beve/reader.rs:2518-2537 | the masks, shifts and ors give the single so widened, for all 65536 halves |
| `Floats.Bf16ToF32` | src/beve/reader.rs:2506-2510 | the shift gives the single so widened |
| `Floats.DoubleIsExact` | src/value.rs:1067-1072 | a float of any width, through a single where it is narrower, becomes a double of the same value |
| `Trees.ReadFloat` | src/value.rs:1066-1073 | the double of a float's bytes, by those conversions |
| `Trees.ReadObject` | src/value.rs:1088-1112 | the members inserted in turn, a repeated key keeping its place and the later value |
| `Trees.TypedItems` | src/value.rs:1119-1152 | the items of a typed array |
| `Trees.ReadComplex` | src/value.rs:1155-1179 | a pair, or the pairs of a run |
| `Trees.ReadMatrix` | src/value.rs:1182-1196 | layout, extents and value |
| `Trees.ReadExtension` | src/value.rs:1050-1057 | complex values and matrices taken and the other extensions refused by kind |
| `TreeTheorems.MatrixDocument` | src/value.rs:1182-1196 | a matrix reads as an object of three members: which layout its byte names, the value right after the byte under extents, and the one after that under value |
| `TreeTheorems.ObjectTree` | src/value.rs:1088-1112 | an object reads as its keys in the order they first came, each with the value of the last member so keyed |
| `TreeTheorems.BoolsDocument` | src/value.rs:1121-1126 | an array of packed booleans reads as the booleans packed |
| `TreeTheorems.StringsDocument` | src/value.rs:1127-1134 | an array of strings reads as those strings, whichever size fields measure them |
| `NumberTheorems.ComplexTree` | src/value.rs:1155-1179 | a complex integer reads as a pair, the real part first, and a run of them as an array of pairs |
| `Writers.WriteThenRead` | src/value.rs:813-821 | writing any tree and reading the document back gives the tree, for exactly the trees of at most 256 levels; a deeper one is refused for its depth |
| `Writers.WrittenReads` | src/value.rs:1198-1216 | the same wherever the document stands and at any depth: it reads as the tree and ends where it does |
| `Writers.Writer.Write` | src/value.rs:1198-1216 | appends one value of the format, the tree's mirror, and nothing else |
| `Writers.Writer.WriteNumber` | src/value.rs:1232-1240 | appends the header and eight bytes of a signed, unsigned or floating number |
| `Writers.Writer.StrBody` | src/beve/writer.rs:759-764 | appends a string's size and bytes |
| `Writers.ToBeve` | src/value.rs:818-821 | the whole document |
| `Writers.FromBeve` | src/beve/mod.rs:153-163 | one value and nothing after it, or why not |
| `Sequences.ReadSeq` | src/beve/reader.rs:1508-1570 | reading an array element by element: the items, or the error, and in both cases where the cursor stops |
| `Sequences.SeqIsTree` | src/beve/reader.rs:1508-1630 | a sequence read succeeds exactly when a tree read does and finds an array other than a run of complex numbers with any in it, and then both have the same items and end |
| `Sequences.OnePair` | src/beve/reader.rs:1542-1559 | a run of one complex number is an array of one pair to a tree, and no sequence of trees |
| `Sequences.Implying` | src/beve/reader.rs:468-475 | an element is read under the installed header, which is taken back however the read exits |
| `Sequences.Elements` | src/beve/reader.rs:1621-1629 | a run of elements, the record of the installed header restored on every exit |
| `Sequences.NumberRun` | src/beve/reader.rs:1608-1616 | numbers read one at a time are the block's, and are all there is to refuse in it |
| `Sequences.PackedElements` | src/beve/reader.rs:1586-1603 | packed booleans read in place, the cursor moving once at the end |
| `PackedBools.PackedUnpacks` | src/beve/impls.rs:155-167 | unpacking what is packed returns the list |
| `PackedBools.UnpackedPacks` | src/beve/reader.rs:2406-2412 | a payload with clear padding is byte for byte the packing of what it unpacks to |
| `PackedBools.WritePayload` | src/beve/impls.rs:155-167 | appends exactly the packing |
| `MeaningTheorems.ReadIsMeant` | src/beve/reader.rs:959-1074 | reading into a declared type succeeds exactly when the document skips to a value that has a meaning of that type, with that meaning and that end; the meaning is said field by field of the value, with no run, cursor or set of fields met |
| `TypedRoundTrip.ReadsBack` | src/beve/reader.rs:959-1315 | any document that spells a value of a declared type, its members in any order, a tag anywhere among them and anything around it, reads as that value, over whatever was there |
| `TypedRoundTrip.FieldOfRecord` | src/beve/reader.rs:1047-1074 | a struct read holds in each field what the field's type reads at the one member so keyed, the last for a leaf met again; unmet, it is not required and holds what it held, or its default |
| `TypedRoundTrip.FieldOfCase` | src/beve/reader.rs:1256-1315 | a variant read is the first that has the name the tag's text gives, and the same of its fields, the members past the tag coming before the others |
| `TypedRoundTrip.LastHeld` | src/beve/reader.rs:1020-1041 | the last member for a field decides it, read into what those before it left |
| `LateTagTheorems.LateTagReadsAsFirst` | src/beve/reader.rs:1199-1212 | any object that skips and has the tag reads as the same object with the tag moved to the front and the members before it to the end: both fail or both give one value and one end |
| `LateTagTheorems.TagPlaceIsFree` | src/beve/reader.rs:1214-1315 | the same wherever the rearranged object stands |
| `LateTagTheorems.TaggedSkips` | src/beve/reader.rs:1256-1315 | whatever reads as a tagged object skips, to the same byte |
| `LateTagTheorems.ReadSkips` | src/beve/reader.rs:959-1041 | whatever reads into a declared type skips, to the same byte |
| `LateTagTheorems.ReadMoves` | src/beve/reader.rs:959-1315 | reading into a declared type depends on the bytes read and on nothing else |
| `LateTagTheorems.FoundTag` | src/beve/reader.rs:1264-1292 | the tag found is the first member so keyed |
| `LateTags.ReadInternallyTagged` | src/beve/reader.rs:1214-1251 | reads what the payload's members after and then before the tag make, and restores the stack and the depth on success and on failure |
| `LateTags.TaggedObject` | src/beve/reader.rs:1256-1315 | the same short of the restoring, leaving the runs below its own as they were |
| `LateTags.SeekTag` | src/beve/reader.rs:1261-1292 | the tag, with one run stacked exactly when members came before it |
| `LateTags.TakeDeferred` | src/beve/reader.rs:1082-1087 | pops the run at this depth, which is this object's own and no other's |
| `LateTags.ReadVariant` | src/macros.rs:3387-3418 | the variant the tag names is read from the members after the tag and the run before it, or the name is refused at the tag's value |
| `LateTags.ReadObjectRest` | src/beve/reader.rs:995-1015 | the members left, then the object's own run, and the level left; a required member met in neither is reported at the object |
| `LateTags.RestMembers` | src/beve/reader.rs:1020-1041 | the members at the cursor and then the deferred ones, the cursor ending past the former |
| `LateTags.ObjectMember` | src/beve/reader.rs:1047-1074 | one member: read into its field, refused at its key, or stepped over, as `ReadIsMeant` has it mean |
| `LateTags.FinishInternallyTagged` | src/beve/reader.rs:1095-1129 | the rest of a variant that carries nothing |
| `LateTags.ReadObject` | src/beve/reader.rs:959-980 | a struct read, with depth and stack as they were |
| `LateTags.ReadInto` | src/macros.rs:3387-3418 | reads the value the document is of the declared type, which `ReadIsMeant` says without this reading, or fails where that reading does |
| `SeekTheorems.SeekFindsWhatTheTreeHas` | src/beve/reader.rs:2069-2118 | on a document with no extension and no two keys alike in an object, a pointer every token of which is spelled for both (Spelled) is found exactly when the tree has a value there, and the cursor is left where the walk builds that value |
| `SeekTheorems.AlikeIffSpelled` | src/beve/reader.rs:2126-2212 | one token means the same to a reader and to a tree exactly when it is Spelled: at string keys, unless it has a stray ~ and spells a key all the same; at integer keys and in arrays, unless it means one that is there and is not spelled as that integer is written. Otherwise one of the two has a value and the other none |
| `SeekTheorems.PathParts` | src/value.rs:641-657 | a pointer only the last token of which is not so spelled is found by one of the two alone |
| `SeekTheorems.LeadingZeroParts` | src/beve/reader.rs:2306-2329 | 01 is the second element to a tree and none to a reader |
| `SeekTheorems.PlusParts` | src/beve/reader.rs:2165-2202 | +5 is the key 5 of an integer-keyed object to a reader and none to a tree |
| `SeekTheorems.StrayTildeParts` | src/beve/reader.rs:2260-2279 | a lone ~ is refused by a reader and is the key ~ to a tree |
| `SeekTheorems.SeekAndRead` | src/beve/reader.rs:2069-2073 | a seek and then a tree read, at the depth the seek gave back, yield what the tree has at the pointer, or the seek fails if there is nothing |
| `SeekTheorems.ShallowerValue` | src/beve/reader.rs:2049-2067 | what a walk takes at some depth it takes alike at any smaller one |
| `SeekTheorems.DescendFinds` | src/beve/reader.rs:2126-2254 | one token, for any walk that takes the container: it is found exactly when it names something, an element of a typed array by multiplying, and that is what the same walk then takes |
| `SeekTheorems.PathRefused` | src/beve/reader.rs:2126-2162 | on a value that walks, a pointer fails for one of two reasons, decided by the pointer and the value: the first token with a stray ~, or the first that names nothing, which is malformed only as an index of an array |
| `SeekTheorems.ReadAt` | src/beve/reader.rs:2080-2085 | the same at the depth the value sits at in the document, giving every level back |
| `Seeks.Seek` | src/beve/reader.rs:2069-2073 | lands where the pointer leads, with the element's header installed, and leaves the depth alone |
| `Seeks.Walk` | src/beve/reader.rs:2090-2099 | counts one level a token, and none on a failure |
| `Seeks.Descend` | src/beve/reader.rs:2126-2162 | one step, by the container's kind |
| `Seeks.DescendObject` | src/beve/reader.rs:2165-2202 | the first member whose key the token names |
| `Seeks.DescendTyped` | src/beve/reader.rs:2214-2254 | the element, without walking those before it unless they are strings |
| `Pointers.CheckEscapes` | src/beve/reader.rs:2266-2279 | refuses exactly the tokens in which some ~ begins no escape |
| `Pointers.TokenEq` | src/beve/reader.rs:2287-2304 | true exactly when the key is the token unescaped as section 4 of RFC 6901 has it |
| `Pointers.TwoPassesAgree` | src/value.rs:837-843 | the two replacements in turn unescape every token as one pass does |
| `Pointers.EscapeRoundTrip` | src/beve/reader.rs:2260-2265 | every name has a token that spells it, with no slash in it |
| `Pointers.SplitIsExact` | src/beve/reader.rs:2110-2117 | splitting takes out the slashes and nothing else |
| `Pointers.DecimalToken` | src/beve/reader.rs:2182-2186 | a token spells an integer as one is written exactly when it is written so itself |
| `Pointers.IndexToken` | src/beve/reader.rs:2306-2329 | every index a reader takes a tree takes as the same, and of what a tree takes a reader takes exactly the index spelled as its number is written |
| `Pointers.IndexRefused` | src/beve/reader.rs:2317-2329 | a token is malformed as an index exactly when it is no dash and not how any number is written, and the index of nothing when it is the dash or past 64 bits |
| `KeyMaps.Build` | src/keymap.rs:308-495 | refuses exactly the lists with a repeated or an escaped key, and otherwise gives a map that serves the list, whichever rung it stops at |
| `KeyMaps.LookupSized` | src/keymap.rs:1004-1080 | every declared key gives its own index, and any bytes give at most n |
| `KeyMaps.Lookup` | src/keymap.rs:868-989 | every declared key followed by a quote and anything at all gives its own index, and any bytes give at most n |
| `KeyMaps.Resolve` | src/keymap.rs:991-1003 | a sized lookup and one comparison are a search of the whole list |
| `KeyMaps.ResolveQuoted` | src/keymap.rs:860-867 | a quoted lookup and one comparison find the key the document begins with, if it begins with one |
| `KeyMaps.SearchSeed` | src/keymap.rs:775-820 | a seed that separates every key with the table it fills, or a collision under every seed there is |
| `KeyMaps.FindPerLength` | src/keymap.rs:647-705 | a telling column for every length there is a key of, or a length with none |
| `KeyMaps.FindUniqueIndex` | src/keymap.rs:560-585 | the first column that tells every key apart |
| `KeyMaps.FindSizedUniqueIndex` | src/keymap.rs:589-626 | the first column that tells apart the keys of each length |
| `KeyMaps.FrontBytesDistinct` | src/keymap.rs:628-643 | true exactly when no two keys share their leading bytes |
| `KeyMaps.TryMod4` | src/keymap.rs:515-557 | a scheme whose arithmetic on the first byte is the index |
| `KeyMaps.SlotsFor` | src/keymap.rs:286-297 | a power of two, at most 256; one for fewer than two keys, and otherwise below 256 half the square's next power of two |
| `KeyMaps.KeyLen` | src/keymap.rs:1087-1097 | a key's length if its quote falls where a declared key's could |
| `KeyMaps.FindQuote` | src/keymap.rs:832-858 | the first quote at or after a place |
| `KeyHashes.ShortDigestInjective` | src/keymap.rs:1139-1156 | no two keys of fewer than eight bytes fold alike |
| `KeyHashes.KeyDigest` | src/keymap.rs:206-223 | the fold of a key, from a buffer that runs on past it |
| `KeyHashes.ToU64Below8` | src/keymap.rs:129-137 | the bytes as a little-endian word |
| `Swar.EqMaskPoints` | src/swar.rs:30-33 | the lowest bit set is in the first byte equal to b, and none is set if no byte is |
| `Swar.LtMaskPoints` | src/swar.rs:42-45 | the same for the first byte below a bound of at most 0x80 |
| `Swar.LtMaskNeedsBound` | src/swar.rs:35-43 | past that bound it finds nothing in a word of eight bytes that are all below |
| `Swar.EscapeMaskPoints` | src/swar.rs:53-55 | the same for the first byte a JSON string cannot carry, though three masks are or-ed |
| `Swar.FirstMatchIsFirst` | src/swar.rs:79-81 | trailing zeros lead to the first marked byte |
| `Swar.MarksWord` | src/swar.rs:18-33 | the word subtraction is the byte subtraction with its borrow carried upward |
| `Swar.FindByte` | src/swar.rs:96-114 | the least matching index at or after a place, for any length |
| `Windows.Window.TryNext` | src/stream.rs:208-223 | answers, in stream offsets, what a window that dropped nothing would; a failure is reported once and then the stream is over |
| `Windows.Window.Locate` | src/stream.rs:225-244 | the item if it is within the limit, and else where it began |
| `Windows.Window.Compact` | src/stream.rs:191-200 | moves no more than it drops, keeps what is unresolved, and leaves under half the window dead |
| `Windows.Window.Ask` | src/stream.rs:225-230 | the framer's answer over what is left in the buffer is its answer over the whole stream |
| `Windows.Window.Fill` | src/stream.rs:249-290 | appends what was read, to a failed window's buffer too, ends the input on nothing, and holds at most one unresolved byte past the limit or past what was held before |
| `Windows.WantedIs` | src/stream.rs:249-257 | a fill asks for what was asked of it, but for at least a byte and at most what brings the unresolved to one past the limit |
| `Windows.Window.Pull` | src/beve/stream/read.rs:213-234 | asking and filling in turn answers as over a window that keeps everything, never holds more than one unresolved byte past the limit, and never fills a failed window or one whose input is over |
| `Windows.Window.Extend` | src/stream.rs:172-180 | the stream grows by the bytes, unless framing has failed |
| `Windows.Window.Buffered` | src/stream.rs:130-137 | the unresolved bytes |
| `Windows.Window.IntoUnread` | src/stream.rs:144-151 | the stream from the next unresolved byte on, or nothing after a failure |
| `Windows.Window.Offset` | src/stream.rs:154-156 | the next unresolved byte's place in the stream |
| `Windows.Window.Replay` | src/stream.rs:130-290 | any interleaving of extends, fills and requests is answered as over a window that keeps everything |
| `Windows.ItemsInOrder` | src/stream.rs:225-244 | over any run items come in stream order, none overlapping another or past the limit, and nothing but the end follows a failure |
| `Windows.FailureAbsorbs` | src/stream.rs:172-211 | after a failure every answer is the end and the stream takes no more |
| `Scanners.Scanner.Advance` | src/beve/stream/split.rs:194-254 | the loop over duties, as the walk of the bytes there are resumed from where it stood |
| `ScannerTheorems.HeadOpens` | src/beve/stream/split.rs:278-360 | a preamble, its payload and the container it opens are the walk of the value; it is refused as the walk refuses it but for a matrix at the depth limit that nothing follows |
| `ScannerTheorems.MeetKeeps` | src/beve/stream/split.rs:194-254 | meeting a duty on part of the input leaves the same to walk on all of it |
| `ScannerTheorems.AdvanceIsFramed` | src/beve/stream/split.rs:189-254 | from wherever the scan stood, it answers an end exactly when the skipping walk accepts, and there; asks for more exactly when that walk finds the input ended; and refuses with its error; but for one input |
| `ScannerTheorems.AnyChunking` | src/beve/stream/split.rs:1-31 | so for any cutting of the input into chunks |
| `ScannerTheorems.StreamRefusesFirst` | src/beve/stream/split.rs:343-346 | 256 nested arrays around the header of a matrix, and no more: ended early to the walk, too deep to the scanner |
| `ScannerTheorems.AdvanceAgain` | src/beve/stream/split.rs:183-254 | having walked part of the input first, the scan comes to stand where it would have, with the same answer |
| `ScannerTheorems.ShiftAdvance` | src/beve/stream/split.rs:152-155 | the answer and the scan it leaves move with the buffer and depend on nothing in front of it |
| `Documents.Splitter.Next` | src/beve/stream/split.rs:529-567 | over whole documents: past delimiters, into a walk, out with a span |
| `Documents.SplitterIsSound` | src/beve/stream/split.rs:528-687 | the splitter meets the window's contract, though rebasing loses where the last walk stood |
| `Documents.NextIsWalk` | src/beve/stream/split.rs:529-567 | what the splitter answers next is what walking the whole input past its delimiters says |
| `Documents.AnswerIsWalk` | src/stream.rs:208-244 | so is what the window answers, its limit applied; and an error is placed in the stream at the document's first byte if it is too large, and where the walk of the whole input stops if it does not frame |
| `Documents.StreamedIsSlurped` | src/stream.rs:1-9 | however its bytes arrive, the documents a stream is cut into and those left are the ones walking the whole of it finds, delimiters between them stepped over |
| `Documents.FinishedIsSlurped` | src/stream.rs:1-9 | at the end of the stream they are exactly those, and only delimiters are left |
| `Cases.SnakeIsNormalForm` | src/case.rs:300-338 | a name's snake_case form converts to each of the eight styles as the name does |
| `Cases.WriteCased` | src/case.rs:300-338 | writes the words respelled and joined, and nothing past them |
| `CaseTheorems.SpelledIs` | src/case.rs:115-139 | a spelling is the words' own letters in the case the style asks of each, the style's separator between words, and there is no other such |
| `CaseTheorems.ConvertedCase` | src/case.rs:83-98 | no capital in lowercase, snake_case and kebab-case, no small letter in the three upper styles |
| `CaseTheorems.CamelIsPascal` | src/case.rs:89-90 | camelCase is PascalCase with its first word lowered |
| `CaseTheorems.TitledWords` | src/case.rs:13-33 | a PascalCase or camelCase spelling of words of small letters and digits splits into the same words exactly when no capitalised word of one letter is followed by one that does not go on with a letter |
| `CaseTheorems.PartsAt` | src/case.rs:218-247 | between two bytes that are no underscores words part only at a capital: always after a small letter, a digit or a byte beyond ASCII, and after a capital if a small letter or a byte beyond ASCII comes next |
| `CaseTheorems.UnderscoreParts` | src/case.rs:16-17 | an underscore parts the words before it from those after, whatever they are |
| `CaseTheorems.RunOfCapitals` | src/case.rs:20-21 | a run of capitals is one word, and before a small letter only its last begins the next |
| `CaseTheorems.LaterWordsAreCapital` | src/case.rs:218-247 | without underscores every word but the first begins with a capital |
| `CaseTheorems.WordsKeepBytes` | src/case.rs:13-21 | the words hold the name's bytes in order, all but the underscores |
| `CaseTheorems.StaysUtf8` | src/case.rs:36-41 | a name that is valid UTF-8 converts to valid UTF-8 |
| `Cases.CasedLen` | src/case.rs:271-290 | exactly the length written, for a name with a word in it |
| `Cases.StartsWord` | src/case.rs:218-247 | looking back over underscores decides what one byte either side does |
| `Cases.CountWords` | src/case.rs:250-260 | the number of words |
| `Cases.SnakeWords` | src/case.rs:9-19 | the words of a snake_case spelling are those it was spelled from, in lower case |
| `Cases.KeptIsLetters` | src/case.rs:271-280 | every byte but an underscore is in exactly one word |

## Left out

- JSON text: the parser, the writer, and the text `transcode` produces; of the transcoding walk the success, the refusal, the cursor and the depth are modelled.
- The conversion of a single to a double is the standard library's, and stands as the exact widening `WideningKeeps` is about; a float is its bits, and no arithmetic on floats is modelled.
- Writing: of the two writers, the one for trees; declared types, typed arrays, the aligned form and the sink are not written here. A struct's or a variant's document is described (`Spells`), not produced.
- The splitter's array mode, and the JSON splitter: the window is proved over any framer that meets the contract in `Sound`, and the splitter of whole documents is shown to be one.
- The splitter reads a preamble from a slice that begins at the value; the model reads the same bytes at their place, `WalkShift` being why that is the same.
- Sequences.ReadSeq: reads each element as a tree, where the source runs any body it is given.
- Sequences.Implying: the body run under the installed header is a tree read, for the same reason.
- Sequences.Elements: likewise.
- SeekTheorems.SeekFindsWhatTheTreeHas: a document with two keys alike in an object is left out, the reader taking the first of them and the tree the last; so are extensions, whose insides no pointer addresses.
- Generated dispatch: a declared type is a schema of leaves, structs and internally tagged enums, a leaf being any value read as a tree. A key finds its field through a list search, which `KeyMaps.Resolve` shows a key map lookup to be. Aliases are not modelled.
- Values assigned before a read fails: a declared type is returned whole or not at all, where the source fills it in place.
- The key carried beside an error (`error_key`), and rendering of errors.
- Block copies, borrows and `try_bulk`: the extent they take is that of the block, which the walks model; alignment and endianness of memory are not.
- `read_map`, `read_array`, `read_enum`, `read_bytes` and the scalar reads: each takes one header the walks already decide.
- Allocation: capacities, `cautious` and `honest` reserve memory and decide nothing. `inited` is kept as the window's field, with the initialisation it stands for left out.
- `sort_unstable_by` is any sort, `AssocLists.SortedUnique` being why it does not matter which; `retain`'s closure is a function of the entry and of how many it has been shown.
- `usize` is 64 bits. The counts and lengths of a `KeyMap`, `u32` there, are unbounded, so a declared key of 4 GiB is not modelled.
- The other conversions of src/case.rs (`style`, `unraw`), src/num/itoa.rs, iterators and accessors: they would add only easy members.
- Quality of hashing: which rung is reached, and how many seeds are tried, matter to no statement here.
