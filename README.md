# cpp_study core, modelled in Dafny

This project models the self-contained core of the cpp_study utility library and proves properties of it. Each source file becomes one or more Dafny modules, kept in the form of the C++: pure helpers are functions, and loops and in-place updates are methods proved against specification functions.

- **Global string and number helpers** (`core/global.cpp`). These are modules `Strings`, `Numbers`, `MemorySizes` and `TextParsing`. They cover:
  - `trim` with the `strchr` membership of `isWhitespace`/`contains`;
  - `isPrefix`/`isSuffix`/`chopPrefix`/`chopSuffix`, `split`, `concat`;
  - ASCII case folding, `stringCharsAllAllowed`, `indexOf`/`contains`;
  - the fixed-width hex formatters, the bounded decimal scanners `isDigits`/`parseDigits`, and `readMem` with its unit suffixes and overflow check;
  - `boolToString`/`tryStringToBool`/`stringToBool`, `readKeyValues` and `stripComments`.
- **Hashing** (`core/hash.cpp`, module `Hash`). It covers:
  - `highBits`/`lowBits`/`combine`;
  - the linear congruential step and the integer mixers (`murmurMix`, `splitMix64`, `rrmxmx`, `nasam`);
  - `rotateRight` and the Jenkins mix;
  - both `simpleHash` overloads;
  - the 32-digit hex text form of `Hash128`.
  
  `uint64_t` and `uint32_t` are `bv64` and `bv32`, which wrap as C++ does.
- **MD5** (`core/md5.cpp`, module `Md5`). `MD5::get` follows RFC 1321:
  - padding and the length append of sections 3.1 and 3.2;
  - the initial registers of section 3.3;
  - the 64-step block loop of section 3.4, over a padded byte array.
- **Command lines** (`core/commandloop.cpp`, module `CommandLoop`). `processSingleCommandLine` is filtering, comment stripping, tab replacement and trimming, done in place on an array of characters.
- **`enabled_t`** (`core/commontypes.h`, module `CommonTypes`). The three-valued flag with its parser, printer and equality.
- **ConfigParser** (`core/config_parser.cpp`).
  - Modules `ConfigSyntax`, `ConfigParsing` and `ConfigEdits` give the specification functions:
    - the character-level `parseKeyValue`;
    - the line-by-line reading with `@include` files, duplicate-key rules and include-cycle checks;
    - `extractBaseDir` and `parseCommaSeparated`;
    - overrides, mutually exclusive key sets and aliases;
    - the range-checked integer getters.
  - Module `Config` holds the class `ConfigParser`. Its fields (`keyValues`, `usedKeys`, `includedFiles`, `baseDirs`, `curFilename`, `curLineNum`, `logMessages`, `contents`) are updated in place by methods proved against those functions.
  - A file system is a map from path to the lines of the file, and a stream is a sequence of lines.
- **Rating optimiser** (`core/elo.cpp`, module `Elo`).
  - It models `computeElos` (the `iterate` lambda, Gauss-Seidel over in-place arrays, and the outer loop), `computeLocalLogLikelihood` and `computeApproxEloStdevs`.
  - Doubles are `real`.
  - `log(1 + exp(x))`, `exp` and `sqrt` are function parameters. What is proved is the control structure, not numeric values.

Thrown exceptions (`IOError`, `StringError`, `ConfigParsingError`) become a `Failure` of the `Result` type in module `Wrappers`. Message texts are not modelled.

`global.h` is not part of this model. `trim`'s default delimiters are taken as `" \t\r\n\v\f"`, the set `isWhitespace` tests in `core/global.cpp`.

## Model

| member | source | states |
|---|---|---|
| CommonTypes.TryParse | core/commontypes.h:27-37 | a refused spelling leaves buf as it was |
| CommonTypes.ToString | core/commontypes.h:22-24 | "true", "false" or "auto" for True, False and Auto; CommonTypes.TryParseToString proves that tryParse reads each one back to the same value |
| CommonTypes.Eq | core/commontypes.h:16 | equality of the underlying value; CommonTypes.NeqIsNotEq relates it to != |
| CommonTypes.Neq | core/commontypes.h:19 | inequality of the underlying value, exactly the negation of Eq by CommonTypes.NeqIsNotEq |
| CommonTypes.TryParseSpellings | core/commontypes.h:27-37 | the six true spellings give True, the six false spellings give False, "auto" gives Auto, and exactly the other strings are refused with buf unchanged |
| CommonTypes.TryParseToString | core/commontypes.h:22-37 | tryParse(toString(e)) succeeds with e; "true" is a true spelling and "false" a false one |
| CommonTypes.NeqIsNotEq | core/commontypes.h:16-19 | != holds exactly when == does not |
| Strings.CStr | core/global.cpp:593-602 | the C view of a string stops at its first NUL and is a prefix of it |
| Strings.CStrNoNul | core/global.cpp:593-602 | a string without NUL is its own C view |
| Strings.ContainsWithoutNul | core/global.cpp:593-602 | contains(str, c) on a NUL-free string is membership, and is true for NUL (strchr finds the terminator) |
| Strings.IsWhitespace | core/global.cpp:313-316 | strchr membership in " \t\r\n\v\f"; Strings.WhitespaceChars proves it accepts exactly those six characters and NUL |
| Strings.WhitespaceChars | core/global.cpp:313-316 | isWhitespace accepts exactly the six blank characters and NUL |
| Strings.FindFirstNotOf | core/global.cpp:365-367 | a position found holds a non-delimiter |
| Strings.Trim | core/global.cpp:360-370 | the specification of trim; Strings.TrimIsMaximalStrip proves it is the contiguous substring left after stripping delimiters at both ends, empty exactly when every character is a delimiter |
| Strings.FirstNotOfSpec | core/global.cpp:365-367 | everything before the position found is a delimiter; nothing is found exactly when all characters are delimiters |
| Strings.FindLastNotOf | core/global.cpp:362-364 | a position found holds a non-delimiter |
| Strings.LastNotOfSpec | core/global.cpp:362-364 | everything after the position found is a delimiter; nothing is found exactly when all characters are delimiters |
| Strings.FindFirstOf | core/global.cpp:676-688 | a position found holds one of the characters looked for |
| Strings.FirstOfSpec | core/global.cpp:676-688 | nothing before the position found is looked for; nothing is found exactly when no character is |
| Strings.FindFirstOfAfter | core/global.cpp:676-688 | a prefix free of the characters shifts the position found by its length |
| Strings.FirstBeforeLast | core/global.cpp:360-370 | when there is a last non-delimiter there is a first one, no later |
| Strings.LeadingDelims | core/global.cpp:365-367 | the count of leading delimiters stops at a non-delimiter or the end |
| Strings.LeadingDelimsSpec | core/global.cpp:365-367 | every character before that count is a delimiter |
| Strings.FirstNotOfIsLeading | core/global.cpp:365-367 | find_first_not_of gives exactly the number of leading delimiters, or none |
| Strings.TrimEmpty | core/global.cpp:360-370 | trim gives the empty string exactly when every character is a delimiter |
| Strings.TrimIsMaximalStrip | core/global.cpp:360-370 | trim is the contiguous substring after the leading delimiters; all it drops at either end are delimiters; it neither starts nor ends with one; it is empty exactly when all characters are delimiters |
| Strings.TrimBounds | core/global.cpp:360-370 | trim is the slice from the first to the last non-delimiter, or empty when there is none |
| Strings.TrimSlice | core/global.cpp:360-370 | trim is the slice at the leading-delimiter count, followed only by delimiters, with non-delimiter ends |
| Strings.TrimTail | core/global.cpp:360-370 | every character after the trimmed substring is a delimiter |
| Strings.TrimAt | core/global.cpp:360-370 | with p2 the last non-delimiter, trim is s[first non-delimiter..p2 + 1] |
| Strings.TrimChars | core/global.cpp:360-370 | character i of the trimmed string is character i after the leading delimiters |
| Strings.TrimEnds | core/global.cpp:360-370 | a non-empty trimmed string starts and ends with a non-delimiter |
| Strings.TrimLength | core/global.cpp:360-370 | trim never lengthens |
| Strings.TrimOfTrimmed | core/global.cpp:360-370 | a string whose ends are not delimiters is its own trim |
| Strings.TrimIdempotent | core/global.cpp:360-370 | trimming twice is trimming once |
| Strings.ChopPrefix | core/global.cpp:344-349 | succeeds exactly when isPrefix holds, then prefix + result == s; otherwise throws StringError |
| Strings.IsPrefix | core/global.cpp:326-332 | prefix is no longer than s and equals its start; Strings.ChopPrefix succeeds exactly when it holds, with prefix + result == s |
| Strings.IsSuffix | core/global.cpp:335-341 | suffix is no longer than s and equals its end; Strings.ChopSuffix succeeds exactly when it holds, with result + suffix == s |
| Strings.ChopSuffix | core/global.cpp:352-357 | succeeds exactly when isSuffix holds, then result + suffix == s; otherwise throws StringError |
| Strings.JoinedLength | core/global.cpp:415-434 | the joined length is the sum of the element lengths plus (n-1) delimiters, the length concat reserves |
| Strings.Concat | core/global.cpp:387-434 | concat over start..end is the elements of that range with the delimiter only between consecutive ones, and empty for an empty or reversed range |
| Strings.JoinedSnoc | core/global.cpp:424-433 | one more element adds the delimiter and the element, or the element alone when the range was empty |
| Strings.SplitAll | core/global.cpp:445-453 | cutting at every delimiter always gives at least one piece |
| Strings.SplitAllSnoc | core/global.cpp:445-453 | a delimiter starts a new empty piece; any other character extends the last piece |
| Strings.SplitAllLast | core/global.cpp:445-453 | the last piece is empty exactly when s is empty or ends with the delimiter |
| Strings.SplitAllPiecesFree | core/global.cpp:445-453 | no piece contains the delimiter |
| Strings.SplitAllJoined | core/global.cpp:445-453 | joining the pieces with the delimiter gives back s |
| Strings.Split | core/global.cpp:445-453 | split returns the tokens getline reads |
| Strings.Tokens | core/global.cpp:445-453 | the tokens getline reads; Strings.SplitProperties proves none holds the delimiter, there is one exactly when s is non-empty, and rejoined they give s less a final delimiter |
| Strings.SplitAllStep | core/global.cpp:449-451 | the pieces read so far, after one more character |
| Strings.TokensOfSplitAll | core/global.cpp:445-453 | at the end of input the pending piece is a token unless it is empty |
| Strings.SplitProperties | core/global.cpp:445-453 | no token contains the delimiter; there is a token exactly when s is non-empty; the tokens joined by the delimiter give back s, less a final delimiter |
| Strings.Lowered | core/global.cpp:466-473 | same length, each character lowered |
| Strings.Uppered | core/global.cpp:456-463 | same length, each character raised |
| Strings.ToUpper | core/global.cpp:456-463 | the result is the input with every lower-case ASCII letter raised |
| Strings.ToLower | core/global.cpp:466-473 | the result is the input with every upper-case ASCII letter lowered |
| Strings.LoweredProperties | core/global.cpp:456-473 | lowering is idempotent, forgets the case (lower of upper is lower) and leaves no upper-case letter |
| Strings.IsEqualCaseInsensitive | core/global.cpp:476-485 | true exactly when the two strings are equal once lowered (so unequal lengths give false) |
| Strings.StringCharsAllAllowed | core/global.cpp:630-638 | true exactly when every character passes the strchr test against the allowed characters |
| Strings.ContainsString | core/global.cpp:605-611 | true exactly when elt is an element |
| Strings.IndexOfString | core/global.cpp:620-627 | the first position holding elt, or npos exactly when elt is absent |
| Numbers.Pow16Widths | core/global.cpp:113-132 | 16^8 is 2^32 and 16^16 is 2^64, so 8 and 16 digits cover the two widths |
| Numbers.Nibble | core/global.cpp:120 | a nibble is below 16 |
| Numbers.NibbleIsShiftAndMask | core/global.cpp:120 | nibble i is (x >> 4i) & 0xf |
| Numbers.HexDigitsNibble | core/global.cpp:119-120 | the digit at position n-1-i is the table digit of nibble i |
| Numbers.HexDigitsGrow | core/global.cpp:119-120 | one more digit goes in front: nibble i |
| Numbers.FixedWidthHex | core/global.cpp:113-132 | the loop leaves exactly the low hexLen digits of x, most significant first |
| Numbers.Uint32ToHexString | core/global.cpp:113-121 | exactly 8 upper-case digits, position 7-i holding digit (x >> 4i) & 0xf |
| Numbers.Uint64ToHexString | core/global.cpp:124-132 | exactly 16 upper-case digits, position 15-i holding digit (x >> 4i) & 0xf |
| Numbers.HexValue | core/global.cpp:237-238 | the value of n hex digits is below 16^n |
| Numbers.LowDigitsOfSmall | core/global.cpp:237-238 | a number below 16^n is its own low n digits |
| Numbers.HexDigitCharsValues | core/global.cpp:115 | every table digit is a hex digit worth its position |
| Numbers.HexDigitsAreHex | core/global.cpp:124-132 | what uint64ToHexString prints is all hex digits |
| Numbers.HexRoundTrip | core/global.cpp:226-244 | reading back n printed digits gives the low n digits of x |
| Numbers.HexStringToUInt64 | core/global.cpp:226-264 | a success is below 2^64 and is the value of an all-hex string; a failure is IOError |
| Numbers.TryHexStringToUInt64 | core/global.cpp:226-244 | the value of a non-empty all-hex string below 2^64, otherwise nothing; Numbers.HexStringRoundTrip proves it reads back what uint64ToHexString prints |
| Numbers.HexStringRoundTrip | core/global.cpp:124-264 | hexStringToUInt64(uint64ToHexString(x)) == x |
| Numbers.DecimalValue | core/global.cpp:552-581 | the value of n decimal digits is below 10^n |
| Numbers.ScannedChars | core/global.cpp:547-576 | the scanned range is start..min(end, size), character by character |
| Numbers.DecimalValueStep | core/global.cpp:552-581 | one more digit multiplies the value by 10 and adds the digit |
| Numbers.IsDigits | core/global.cpp:539-560 | true exactly when the range is non-empty, at most 9 long, and every scanned character is a digit |
| Numbers.IsDigit | core/global.cpp:521-524 | the characters '0' to '9'; Numbers.IsDigits and Numbers.ParseDigits state what the scanners built on it accept |
| Numbers.ParseDigits | core/global.cpp:569-590 | throws IOError exactly on an empty range or one longer than 9; returns 0 when a scanned character is not a digit, and otherwise the decimal value, below 10^9 |
| MemorySizes.ShlIsMul | core/global.cpp:773-779 | shifting left by k one bit at a time multiplies by 2^k |
| MemorySizes.ShlMono | core/global.cpp:773-779 | a longer shift never gives a smaller value |
| MemorySizes.MemSuffix | core/global.cpp:701-766 | the number text chosen by the chain of find_first_of tests is no longer than the input |
| MemorySizes.ShiftedMem | core/global.cpp:768-780 | a number text that is 1 to 9 digits and whose shifted value fits 64 bits gives that value; anything else is IOError |
| MemorySizes.ReadMem | core/global.cpp:697-781 | IOError for fewer than 2 characters, for a number text isDigits refuses, or for a size over 64 bits; otherwise number << shift of the unit the suffix tests select |
| MemorySizes.FindAfterNumberOne | core/global.cpp:706 | find_first_of on digits followed by one letter finds that letter when it is in the set, and nothing otherwise |
| MemorySizes.FindAfterNumberTwo | core/global.cpp:711 | find_first_of on digits followed by two letters finds the first of them that is in the set |
| MemorySizes.MemSuffixLetter | core/global.cpp:706-755 | a number followed by K, M, G, T or P is read with that unit's shift |
| MemorySizes.MemSuffixLetterB | core/global.cpp:711-760 | a number followed by KB, MB, GB, TB or PB is read with that unit's shift |
| MemorySizes.MemSuffixBytes | core/global.cpp:761-765 | a number followed by B alone is read with shift 0 |
| MemorySizes.MemSuffixOfNumber | core/global.cpp:766-770 | a bare number of two or more digits is read with shift 0 |
| MemorySizes.ReadMemAcceptsDoubledB | core/global.cpp:711-715 | as written, "5BB" splits into shift 10 and number "5", so it reads as 5120 |
| MemorySizesCorrected.MemSuffixCorrected | core/global.cpp:701-766 | the number text is a prefix and what follows it is exactly one unit (K..P, K..P with B, B alone) or nothing, with that unit's shift; a string ending in a unit letter or B has a non-empty unit |
| MemorySizesCorrected.ReadMemCorrected | core/global.cpp:697-781 | readMem with the corrected split: same error cases and the same shifted value |
| MemorySizesCorrected.SuffixesSelectShifts | core/global.cpp:706-770 | on a number followed by a well-formed unit, the split as written and the corrected split agree and select the unit's shift |
| MemorySizesCorrected.CorrectedUnits | core/global.cpp:706-770 | the corrected split of a number followed by each kind of unit |
| MemorySizesCorrected.ReadMemCorrectedRejectsDoubledB | core/global.cpp:711-715 | the corrected split leaves "5B" as the number text, which isDigits refuses |
| TextParsing.BoolToString | core/global.cpp:41-44 | "true" or "false", 4 or 5 characters (its partner is BoolRoundTrip) |
| TextParsing.TryStringToBool | core/global.cpp:181-195 | succeeds exactly when the trimmed, lower-cased text is "true" or "false", and then yields the value it names |
| TextParsing.StringToBool | core/global.cpp:198-208 | succeeds exactly where tryStringToBool does, with the same value; otherwise IOError |
| TextParsing.BoolRoundTrip | core/global.cpp:41-208 | parsing what boolToString prints gives back the same bool |
| TextParsing.LoweredOfLowerCase | core/global.cpp:466-473 | toLower leaves text with no upper-case letter unchanged |
| TextParsing.BeforeHash | core/global.cpp:684-688 | the line up to its first '#': a prefix with no '#', the whole line when it has none, cut exactly at a '#' otherwise |
| TextParsing.StrippedLinesHasNoHash | core/global.cpp:682-692 | the lines joined after cutting each at '#' hold no '#' |
| TextParsing.StripCommentsProperties | core/global.cpp:674-694 | stripComments leaves no '#', returns text without '#' unchanged, and is idempotent |
| TextParsing.StripComments | core/global.cpp:674-694 | the loop builds exactly each line cut at its first '#' and ended by a newline, or the input itself when it has no '#' |
| TextParsing.StrippedLinesSnoc | core/global.cpp:684-690 | one more line appends that line cut at '#' and a newline |
| TextParsing.ChunkPairNone | core/global.cpp:656-658 | a chunk is skipped exactly when it has no '=' |
| TextParsing.ChunkPair | core/global.cpp:656-662 | the trimmed sides of a chunk's first '='; TextParsing.ChunkPairNone proves it is absent exactly when the chunk has no '=' |
| TextParsing.AddPairs | core/global.cpp:641-671 | the map readKeyValues builds; TextParsing.ReadKeyValuesProperties and the AddPairs lemmas state its errors and contents |
| TextParsing.ChunksFrom | core/global.cpp:645-652 | the chunks from line i on are line i's comma pieces followed by the rest |
| TextParsing.AddPairsFrom | core/global.cpp:652-668 | a chunk without '=' is skipped; one with '=' fails or adds its trimmed pair and goes on |
| TextParsing.ReadKeyValues | core/global.cpp:641-671 | the two nested loops compute the pairs of every comma chunk of every line; every failure is IOError |
| TextParsing.AddChunks | core/global.cpp:650-668 | the inner loop adds one line's chunks exactly as the pair-adding specification does |
| TextParsing.AddPairsErrorIsIO | core/global.cpp:661-666 | every failure while adding pairs is an IOError |
| TextParsing.AddPairsAppend | core/global.cpp:645-668 | adding two runs of chunks is adding the first and then, if it succeeded, the second |
| TextParsing.AddPairsStep | core/global.cpp:656-667 | one chunk: skipped without '=', IOError on an empty side or a present key, added otherwise |
| TextParsing.AddPairsKeeps | core/global.cpp:667 | a successful add keeps every earlier key with its value |
| TextParsing.AddPairsHasPairs | core/global.cpp:667 | every chunk's pair is in a successful result with its value |
| TextParsing.AddPairsNonEmpty | core/global.cpp:661-664 | every key and value of a successful result is non-empty |
| TextParsing.AddPairsRejectsEmpty | core/global.cpp:661-664 | a chunk with an empty key or an empty value makes the whole read fail with IOError |
| TextParsing.AddPairsRejectsPresent | core/global.cpp:665-666 | a key already in the map makes the read fail with IOError |
| TextParsing.AddPairsRejectsRepeatOfFirst | core/global.cpp:665-666 | the first chunk's key given again later fails with IOError |
| TextParsing.AddPairsRejectsDuplicate | core/global.cpp:665-666 | any key given in two chunks fails with IOError |
| TextParsing.AddPairsNext | core/global.cpp:652-668 | the first chunk either fails the read with IOError or leaves a map from which the rest is added |
| TextParsing.AddPairsSkipsPlain | core/global.cpp:656-658 | removing a chunk without '=' changes nothing |
| TextParsing.ReadKeyValuesProperties | core/global.cpp:641-671 | on success every chunk's pair is in the map with its value and every key and value is non-empty; an empty side or a repeated key makes it fail |
| Hash.CombineSplit | core/hash.cpp:12-25 | combine(highBits(x), lowBits(x)) == x, and highBits/lowBits recover both halves of combine(hi, lo) |
| Hash.HighBits | core/hash.cpp:12-15 | the top 32 bits; Hash.CombineSplit proves combine(highBits(x), lowBits(x)) == x |
| Hash.LowBits | core/hash.cpp:17-20 | the bottom 32 bits; Hash.CombineSplit proves lowBits(combine(h, l)) == l |
| Hash.Combine | core/hash.cpp:22-25 | hi above lo; Hash.CombineSplit proves highBits and lowBits take it apart again |
| Hash.XorShift27Inverse | core/hash.cpp:55 | the step x ^ (x >> 27) is undone by its inverse |
| Hash.XorShift28Inverse | core/hash.cpp:75-81 | the step x ^ (x >> 28) is undone by its inverse |
| Hash.XorShift30Inverse | core/hash.cpp:54 | the step x ^ (x >> 30) is undone by its inverse |
| Hash.XorShift31Inverse | core/hash.cpp:56 | the step x ^ (x >> 31) is undone by its inverse |
| Hash.XorShift33Inverse | core/hash.cpp:42-46 | the step x ^ (x >> 33) is undone by its inverse |
| Hash.Mul1Inverse | core/hash.cpp:43 | multiplying by 0xff51afd7ed558ccd modulo 2^64 is undone by its inverse constant |
| Hash.Mul2Inverse | core/hash.cpp:45 | multiplying by 0xc4ceb9fe1a85ec53 modulo 2^64 is undone by its inverse constant |
| Hash.Mul3Inverse | core/hash.cpp:54 | multiplying by 0xbf58476d1ce4e5b9 modulo 2^64 is undone by its inverse constant |
| Hash.Mul4Inverse | core/hash.cpp:55 | multiplying by 0x94d049bb133111eb modulo 2^64 is undone by its inverse constant |
| Hash.Mul5Inverse | core/hash.cpp:72-78 | multiplying by 0x9fb21c651e98df25 modulo 2^64 is undone by its inverse constant |
| Hash.BasicLCongBijective | core/hash.cpp:28-36 | basicLCong and basicLCong2 are bijections on 64-bit words: each has a two-sided inverse |
| Hash.BasicLCong | core/hash.cpp:28-31 | one linear congruential step modulo 2^64; Hash.BasicLCongBijective proves it is a bijection |
| Hash.BasicLCong2 | core/hash.cpp:33-36 | the second linear congruential step modulo 2^64; Hash.BasicLCongBijective proves it is a bijection |
| Hash.MurmurMixInvertible | core/hash.cpp:38-48 | murmurMix is invertible and maps 0 to 0 |
| Hash.MurmurMix | core/hash.cpp:40-48 | the MurmurHash3 finaliser on 64 bits; Hash.MurmurMixInvertible proves it invertible with murmurMix(0) == 0 |
| Hash.SplitMix64Invertible | core/hash.cpp:50-57 | splitMix64 is invertible; it maps 0 to 0xe220a8397b1dcdaf |
| Hash.SplitMix64 | core/hash.cpp:51-57 | the splitmix64 step; Hash.SplitMix64Invertible proves it invertible |
| Hash.RotateRightInverse | core/hash.cpp:60-63 | rotating right by r and then by 64 - r gives back x, for every 0 < r < 64 |
| Hash.RotateRight | core/hash.cpp:60-63 | x rotated right by 0 < r < 64; Hash.RotateRightInverse proves rotating back by 64 - r restores x |
| Hash.RrmxmxNasamFixZero | core/hash.cpp:66-101 | rrmxmx and nasam both map 0 to 0 |
| Hash.RrmxmxTailInvertible | core/hash.cpp:71-81 | the part of rrmxmx after the rotations is invertible |
| Hash.Rrmxmx | core/hash.cpp:66-82 | the rotating xor then the multiply and xor-shift steps; Hash.RrmxmxNasamFixZero and Hash.RrmxmxTailInvertible state what is proved about it |
| Hash.Nasam | core/hash.cpp:87-101 | the rotating xor and two multiply and double xor-shift steps; Hash.RrmxmxNasamFixZero proves nasam(0) == 0 |
| Hash.XorTwice | core/hash.cpp:106-114 | xoring the same value twice gives back the word |
| Hash.SubSubXorInverse | core/hash.cpp:106-114 | one Jenkins line, a -= b; a -= c; a ^= t, is undone when b, c and t are known |
| Hash.RoundAInverse | core/hash.cpp:120 | the first kind of Jenkins line is undone by its inverse |
| Hash.RoundBInverse | core/hash.cpp:121 | the second kind of Jenkins line is undone by its inverse |
| Hash.RoundCInverse | core/hash.cpp:122 | the third kind of Jenkins line is undone by its inverse |
| Hash.RoundInverse | core/hash.cpp:120-122 | three Jenkins lines together are undone in reverse order |
| Hash.JenkinsMixInvertible | core/hash.cpp:118-129 | jenkinsMix is a bijection on three words: its inverse undoes it |
| Hash.JenkinsMixInjective | core/hash.cpp:118-129 | two inputs with the same jenkinsMix result are equal |
| Hash.JenkinsMix | core/hash.cpp:118-129 | the final a, b and c of the nine subtract-and-xor lines; Hash.JenkinsMixInvertible proves it a bijection |
| Hash.JenkinsMixSingle | core/hash.cpp:104-116 | its own nine lines on copies of a, b and c; Hash.JenkinsMixSingleIsMixC proves it returns the c jenkinsMix leaves |
| Hash.JenkinsMixSingleIsMixC | core/hash.cpp:104-129 | jenkinsMixSingle(a, b, c) equals the final c of jenkinsMix on the same a, b and c |
| Hash.PolyPrefixSnoc | core/hash.cpp:140-142 | one more character advances each accumulator by m * k + c |
| Hash.PolySnoc | core/hash.cpp:140-142 | the accumulator of cs + [c] is one step from that of cs |
| Hash.CBytes | core/hash.cpp:137 | the C string is the prefix before the first NUL: no NUL in it, and a NUL right after it when it stops early |
| Hash.Widened | core/hash.cpp:139-140 | each char is widened to 64 bits with sign extension |
| Hash.SimpleHash | core/hash.cpp:132-148 | the loop reads the characters up to the first NUL into the three accumulators, and the result is their two Jenkins-mixed halves combined |
| Hash.CBytesIsPrefix | core/hash.cpp:137 | the loop's stopping point is the end of the C string |
| Hash.CBytesStopsAtNul | core/hash.cpp:137 | nothing after the first NUL is read |
| Hash.SimpleHashStopsAtNul | core/hash.cpp:132-148 | the hash of a string does not depend on the bytes after its first NUL |
| Hash.M4AccPrefixSnoc | core/hash.cpp:163-165 | one more int advances m4 by the one-at-a-time step |
| Hash.Widened32 | core/hash.cpp:159-160 | each int is widened to 64 bits with sign extension |
| Hash.SimpleHashInts | core/hash.cpp:151-174 | the loop computes the three accumulators and m4 over all len ints, and the result folds m4 into both mixed halves |
| Hash.Hash128Text | core/hash.cpp:187-190 | the text is 32 characters: hash1's 16 digits, then hash0's |
| Hash.ToString | core/hash.cpp:187-190 | toString is the two uint64ToHexString texts, hash1 first |
| Hash.Hash128OfText | core/hash.cpp:193-209 | every failure of ofString is an IOError |
| Hash.OfString | core/hash.cpp:193-209 | the length and character checks and the two reads compute ofString exactly |
| Hash.HexFitsSixteen | core/hash.cpp:206-207 | sixteen hex digits always read as a uint64 |
| Hash.Hash128RoundTrip | core/hash.cpp:187-209 | ofString(toString(h)) == h, and ofString succeeds exactly on strings of 32 hex digits |
| Md5.Shift | core/md5.cpp:19-23 | every per-step rotation amount is between 4 and 23 |
| Md5.PaddedBits | core/md5.cpp:67-69 | the loop's bit count is 448 modulo 512 and lies in the 512 values after 8 * len + 1 |
| Md5.PadTo448 | core/md5.cpp:68 | adding (448 - m) mod 512 bits reaches 448 modulo 512 |
| Md5.ModMultiple | core/md5.cpp:68 | adding a multiple of 512 keeps the remainder |
| Md5.PaddedBitsLeast | core/md5.cpp:67-69 | no smaller count from 8 * len + 1 on is 448 modulo 512: the loop stops at the first |
| Md5.PaddedBytes | core/md5.cpp:67-70 | new_len is a whole number of bytes, longer than the message, and 56 modulo 64 |
| Md5.PaddedLength | core/md5.cpp:67-70 | the counting loop computes new_len with 8 * new_len the padded bit count, 56 modulo 64 and above len |
| Md5.BitLength | core/md5.cpp:78 | 8 * len taken modulo 2^64 fits 64 bits |
| Md5.LeBytes | core/md5.cpp:81-82 | a little-endian store of n bytes writes n bytes |
| Md5.LeRoundTrip | core/md5.cpp:81-82 | reading back a little-endian store of x in n bytes gives x when x < 256^n |
| Md5.LeValueAppend | core/md5.cpp:81-82 | the value of two stores side by side is the low one plus 256^(its length) times the high one |
| Md5.Zeros | core/md5.cpp:73 | n zero bytes, as calloc leaves them |
| Md5.Padded | core/md5.cpp:67-82 | the padded message is 8 bytes longer than the padded bit count |
| Md5.PaddedParts | core/md5.cpp:73-82 | the padded message is m, 0x80, zeros up to new_len, then the low and high words of the bit count |
| Md5.PaddedLayout | core/md5.cpp:67-82 | the padded message is a whole number of 64-byte blocks starting with m and 0x80 |
| Md5.PaddedZeros | core/md5.cpp:73 | between the 0x80 and the bit count there are only zeros |
| Md5.PaddedBitCount | core/md5.cpp:78-82 | the last eight bytes, read little-endian, are 8 * len modulo 2^64 |
| Md5.WordIndex | core/md5.cpp:104-123 | the word index g of every step is below 16 |
| Md5.FF | core/md5.cpp:106 | F of RFC 1321 section 3.4; Md5.AuxiliarySelect proves it takes y's bits where x is set and z's elsewhere |
| Md5.GG | core/md5.cpp:111 | G of RFC 1321 section 3.4; Md5.AuxiliarySelect proves GG(x, y, z) == FF(z, x, y) |
| Md5.HH | core/md5.cpp:116 | H of RFC 1321 section 3.4, the bitwise parity of x, y and z; Md5.Rounds uses it for steps 32 to 47 |
| Md5.II | core/md5.cpp:121 | I of RFC 1321 section 3.4; Md5.Rounds uses it for steps 48 to 63 |
| Md5.AuxiliarySelect | core/md5.cpp:104-112 | F is a bitwise choice of y where x is set and z elsewhere, and G is F with its arguments rotated |
| Md5.WordIndexInverse | core/md5.cpp:104-123 | the inverse index is below 16 |
| Md5.RoundWord | core/md5.cpp:104-123 | the word read by step j of a round is below 16 |
| Md5.WordIndexLeftInverse | core/md5.cpp:107-122 | in each round the word index of step j determines j |
| Md5.WordIndexRightInverse | core/md5.cpp:107-122 | in each round every word index is reached by some step |
| Md5.RoundReadsEveryWordOnce | core/md5.cpp:104-123 | each round of 16 steps reads each of the 16 words exactly once |
| Md5.BlockWords | core/md5.cpp:90 | a 64-byte block is 16 words |
| Md5.WordsAt | core/md5.cpp:90 | the block at an offset is 16 words |
| Md5.WordsAtPrefix | core/md5.cpp:90 | a block's words depend only on the bytes of that block |
| Md5.BlocksNext | core/md5.cpp:87-137 | one more block adds its 64 compressed steps to the state |
| Md5.Digest | core/md5.cpp:142-145 | the digest is four words |
| Md5.BuildMessage | core/md5.cpp:67-82 | the buffer is new_len + 128 bytes, new_len is 56 modulo 64 and matches the padded bit count, and the first new_len + 8 bytes are the padded message |
| Md5.TwoStores | core/md5.cpp:81-82 | two four-byte stores at n and n + 4 leave the front and the two words |
| Md5.PaddedAt | core/md5.cpp:73-82 | the padded message spelled out with the computed new_len |
| Md5.NewMessage | core/md5.cpp:73-75 | the first new_len bytes of the new buffer are the message, 0x80 and zeros |
| Md5.StoreWord | core/md5.cpp:81-82 | the memcpy writes the little-endian bytes of x at p and changes nothing else |
| Md5.LeBytesFour | core/md5.cpp:81-82 | the four little-endian bytes of x |
| Md5.LoadWord | core/md5.cpp:90 | the little-endian uint32_t at byte offset p; Md5.LoadWordOfStore proves it reads back a four-byte little-endian store |
| Md5.LoadWordValue | core/md5.cpp:90 | the word read at p is the little-endian value of the four bytes there, which is below 2^32 |
| Md5.LoadWordOfStore | core/md5.cpp:81-90 | a word x < 2^32 stored little-endian at p is read back as x |
| Md5.Rounds | core/md5.cpp:93-130 | the 64 steps on one block compute the compression steps of RFC 1321 section 3.4 |
| Md5.Step | core/md5.cpp:104-129 | one step of RFC 1321 section 3.4: the registers rotate and b gains rotl(a + f + k[i] + w[g], r[i]); Md5.Rounds proves the loop computes it |
| Md5.Steps | core/md5.cpp:100-130 | the registers after the first n steps; Md5.Rounds proves the inner loop reaches Steps(s, w, 64) |
| Md5.Compress | core/md5.cpp:93-136 | one block: the 64 steps added to h word by word; Md5.BlocksNext proves each block of the loop adds it |
| Md5.Blocks | core/md5.cpp:87-137 | h0 to h3 after the first n blocks; Md5.ProcessBlocks and Md5.DigestOf prove the block loop ends at Blocks of all blocks |
| Md5.ProcessBlocks | core/md5.cpp:86-137 | the block loop leaves the chained state of all blocks of the padded message |
| Md5.BlockFits | core/md5.cpp:87 | a block the loop starts lies inside the padded message |
| Md5.BlockCount | core/md5.cpp:87 | the loop runs exactly (new_len + 8) / 64 times |
| Md5.DigestOf | core/md5.cpp:87-145 | the state after all blocks is the digest |
| Md5.WriteDigest | core/md5.cpp:142-145 | hash[0..3] receive h0..h3 |
| Md5.Get | core/md5.cpp:49-146 | MD5::get writes into hash the digest of the first len bytes |
| CommandLoop.Filtered | core/commandloop.cpp:15-20 | the filter never lengthens the line |
| CommandLoop.FilteredKeeps | core/commandloop.cpp:17 | every character left by the filter is printable ASCII or a tab |
| CommandLoop.TabsToSpaces | core/commandloop.cpp:28-30 | the tab pass keeps the length |
| CommandLoop.ProcessSingleCommandLine | core/commandloop.cpp:8-36 | trim, the in-place filter, the cut at the first '#', the tab pass and the second trim compute the normalised line |
| CommandLoop.FilterInPlace | core/commandloop.cpp:15-20 | after the loop the first newLen characters of the buffer are the kept characters, in order |
| CommandLoop.TabsToSpacesInPlace | core/commandloop.cpp:28-30 | after the loop the line is the old line with each tab replaced by a space |
| CommandLoop.FilteredAppend | core/commandloop.cpp:15-20 | filtering two parts is filtering each and concatenating |
| CommandLoop.FilteredOfKept | core/commandloop.cpp:15-20 | a line of kept characters passes the filter unchanged |
| CommandLoop.PipelineChars | core/commandloop.cpp:8-30 | before the last trim the line holds only printable ASCII other than '#' and tab, and is no longer than the input |
| CommandLoop.CleanTrim | core/commandloop.cpp:33 | trimming such a line keeps it so and leaves no whitespace at either end |
| CommandLoop.CommandLineShape | core/commandloop.cpp:8-36 | the result has no comment, no tab, only printable ASCII, no surrounding whitespace, and is no longer than the input |
| CommandLoop.CommandLineOf | core/commandloop.cpp:8-36 | what processSingleCommandLine returns; its shape is proved by CommandLoop.CommandLineShape and its idempotence by CommandLoop.CommandLineIdempotent |
| CommandLoop.CleanPassesThrough | core/commandloop.cpp:22-30 | a line without '#' and tabs passes the comment cut and the tab pass unchanged |
| CommandLoop.NormalisedIsFixed | core/commandloop.cpp:8-36 | a line of that shape is its own normal form |
| CommandLoop.CommandLineIdempotent | core/commandloop.cpp:8-36 | normalising twice is normalising once |
| ConfigSyntax.KeyEnd | core/config_parser.cpp:152-175 | the key scan stops at the first character that is not a letter, digit, '_' or '-', or at the end |
| ConfigSyntax.SpaceEnd | core/config_parser.cpp:178-222 | a blank skip stops at the first non-blank character, or at the end |
| ConfigSyntax.ParseKeyValue | core/config_parser.cpp:144-239 | the four scans of parseKeyValue compute exactly the pair, the no-pair answer or the parsing error of the grammar they implement |
| ConfigSyntax.ParseKV | core/config_parser.cpp:144-239 | the specification of parseKeyValue; ConfigSyntax.ParsedPairShape, ConfigSyntax.PairRoundTrip and the Fails lemmas state what it accepts and rejects |
| ConfigSyntax.ScanKey | core/config_parser.cpp:150-198 | the key scans either decide the whole parse (a '#', an invalid character) or stop at the '=' or the end, with the key being the leading key characters |
| ConfigSyntax.ScanValue | core/config_parser.cpp:208-231 | the value is everything after the blanks that follow the '='; foundAnyValue says whether it is non-empty |
| ConfigSyntax.EqualsThenValue | core/config_parser.cpp:199-222 | past an '=' or at the end the parse goes on with the value after the blanks |
| ConfigSyntax.SliceSnoc | core/config_parser.cpp:157-229 | appending one character to a slice extends it by one position |
| ConfigSyntax.KeyEndRun | core/config_parser.cpp:155-159 | everything the key scan passes is a key character |
| ConfigSyntax.KeyEndAt | core/config_parser.cpp:152-175 | the key scan stops exactly at the first non-key character |
| ConfigSyntax.SpaceEndAt | core/config_parser.cpp:178-182 | a blank skip stops exactly at the first non-blank character |
| ConfigSyntax.ParsedPairShape | core/config_parser.cpp:144-239 | a reported pair has a non-empty key of key characters and a non-empty, trimmed value; no pair means empty key and value |
| ConfigSyntax.FoundPairShape | core/config_parser.cpp:224-238 | the pair reported once the value starts at a non-blank has that shape |
| ConfigSyntax.InvalidKeyCharFails | core/config_parser.cpp:171-174 | any other character right after the key characters is a parsing error |
| ConfigSyntax.CommentLineHoldsNoPair | core/config_parser.cpp:161-165 | a line starting with '#' holds no pair and is no error |
| ConfigSyntax.CommentAfterKeyFails | core/config_parser.cpp:161-187 | a '#' after a key, with or without blanks between, is a parsing error |
| ConfigSyntax.BareEqualsHoldsNoPair | core/config_parser.cpp:199-238 | a line "=" holds no pair and is no error |
| ConfigSyntax.KeyWithoutValueFails | core/config_parser.cpp:235-236 | a key with '=' and no value is a parsing error |
| ConfigSyntax.ValueWithoutKeyFails | core/config_parser.cpp:235-236 | a value with no key is a parsing error |
| ConfigSyntax.PairRoundTrip | core/config_parser.cpp:144-239 | "key=value" parses back to the key and the trimmed value |
| ConfigSyntax.ShortDirectiveFails | core/config_parser.cpp:264-267 | a directive shorter than 9 characters is a parsing error |
| ConfigSyntax.TrimKeepsOut | core/config_parser.cpp:282-284 | trimming never brings in a character |
| ConfigSyntax.IncludeNameHasNoHash | core/config_parser.cpp:277-284 | a file name read from text without '#' holds no '#' |
| ConfigSyntax.DirectiveWord | core/config_parser.cpp:273-275 | a word starting with '@' that trims to "@include" starts with "@include" |
| ConfigSyntax.AcceptedDirectiveIsInclude | core/config_parser.cpp:258-285 | an accepted directive starts with "@include", is at least 9 long, and names a file without '#' |
| ConfigSyntax.IncludeDirective | core/config_parser.cpp:258-285 | the file an "@include" line names, or a parsing error; ConfigSyntax.AcceptedDirectiveIsInclude and ConfigSyntax.IncludeRoundTrip state what it accepts |
| ConfigSyntax.IncludeName | core/config_parser.cpp:277-284 | the name after the separators, trimmed of blanks, then of single quotes, then of double quotes, or a parsing error when only separators follow; ConfigSyntax.PlainIncludeName proves a plain name is read back as it is |
| ConfigSyntax.PlainIncludeName | core/config_parser.cpp:277-284 | a name with no blank, separator, quote or '#' is read back as it is |
| ConfigSyntax.IncludeRoundTrip | core/config_parser.cpp:258-285 | "@include name" names exactly that file |
| ConfigSyntax.IncludeLineTrimmed | core/config_parser.cpp:254 | "@include name" is unchanged by the line trim |
| ConfigSyntax.LastSlash | core/config_parser.cpp:331 | find_last_of("/\\"): the last separator position, or none when there is none |
| ConfigSyntax.ExtractBaseDir | core/config_parser.cpp:329-340 | a prefix of fname, ending in '/' or '\\', empty exactly when fname has none, with no separator after it |
| ConfigSyntax.CommaPairsFrom | core/config_parser.cpp:497-511 | piece i is skipped when blank, fails without '=', and otherwise sets its trimmed key to its trimmed value before the rest |
| ConfigSyntax.ParseCommaSeparated | core/config_parser.cpp:489-513 | the loop over the comma pieces computes exactly the overrides map or the parsing error |
| ConfigSyntax.CommaNext | core/config_parser.cpp:509-510 | one accepted piece keeps every key already present |
| ConfigSyntax.CommaPairsStep | core/config_parser.cpp:497-511 | a non-blank piece without '=' fails the parse; any other goes into the map and the parse goes on |
| ConfigSyntax.CommaPairsOutcome | core/config_parser.cpp:489-513 | the parse fails, with a parsing error, exactly when some non-blank piece has no '='; otherwise no key is lost |
| ConfigSyntax.CommaPairs | core/config_parser.cpp:489-513 | the map parseCommaSeparated builds; ConfigSyntax.CommaPairsOutcome proves it fails exactly when a non-blank piece has no '=' |
| ConfigParsing.IncludedSnoc | core/config_parser.cpp:117 | pushing a name onto includedFiles adds exactly that name |
| ConfigParsing.IncludedMembers | core/config_parser.cpp:113 | the find over includedFiles is membership |
| ConfigParsing.LineStep | core/config_parser.cpp:249-318 | one pass of the reading loop only adds to the files included and leaves baseDirs as it found them |
| ConfigParsing.TrimmedStep | core/config_parser.cpp:254-318 | handling one trimmed line only adds to the files included and leaves baseDirs as it found them |
| ConfigParsing.DirectiveStep | core/config_parser.cpp:258-290 | a directive line only adds to the files included and leaves baseDirs as it found them |
| ConfigParsing.PairStep | core/config_parser.cpp:292-317 | a key = value line changes neither includedFiles nor baseDirs |
| ConfigParsing.AddParsed | core/config_parser.cpp:294-317 | adding a parsed pair changes neither includedFiles nor baseDirs |
| ConfigParsing.ReadLines | core/config_parser.cpp:249-318 | reading the lines of a file only adds to the files included and leaves baseDirs as it found them |
| ConfigParsing.LineStepCases | core/config_parser.cpp:249-318 | a trimmed line that is blank or a comment only counts; an '@' line is a directive; any other is a key = value line |
| ConfigParsing.LineStepTrimmed | core/config_parser.cpp:252-254 | one pass counts the line, trims it, and handles the trimmed line |
| ConfigParsing.TrimmedSkip | core/config_parser.cpp:255-256 | a blank or comment line changes nothing |
| ConfigParsing.TrimmedDirective | core/config_parser.cpp:258-290 | an '@' line is handled as a directive and keeps the file's key set |
| ConfigParsing.TrimmedPair | core/config_parser.cpp:292-317 | any other line is handled as a key = value line |
| ConfigParsing.ReadLinesCons | core/config_parser.cpp:249-318 | reading lines is the first line's pass followed by reading the rest, stopping at an error |
| ConfigParsing.ReadLinesStep | core/config_parser.cpp:249-318 | a failing pass is the outcome of the whole read; a successful one goes on with the lines after it |
| ConfigParsing.ReadFile | core/config_parser.cpp:242-320 | reading a file only adds to the files included and leaves baseDirs as it found them |
| ConfigParsing.IncludeFile | core/config_parser.cpp:110-141 | a successful include records fname as included, only adds to the files included, and restores baseDirs |
| ConfigParsing.ReadIncluded | core/config_parser.cpp:135-140 | reading an included file only adds to the files included and then pops the directory pushed for it |
| ConfigParsing.PairLineParses | core/config_parser.cpp:144-254 | "key=value" with a key of key characters and a trimmed value is already trimmed and parses to exactly that pair |
| ConfigParsing.SkippedLinesOnlyCount | core/config_parser.cpp:252-256 | blank and comment lines only advance curLineNum, one per line |
| ConfigParsing.PairLineStep | core/config_parser.cpp:292-317 | a pair line's pass is the pass of its parsed pair |
| ConfigParsing.RepeatedInFileFails | core/config_parser.cpp:298-302 | a key already set in this file is an error when keysOverrideEnabled is off |
| ConfigParsing.SetEarlierFails | core/config_parser.cpp:307-311 | a key already set earlier or by an included file is an error when keysOverrideFromIncludes is off |
| ConfigParsing.AllowedPairSets | core/config_parser.cpp:298-317 | an allowed pair line sets the key to the value, adds the key to the file's keys, and logs one entry per override |
| ConfigParsing.AddKey | core/config_parser.cpp:298-317 | the duplicate-key rules of readStreamContent; ConfigParsing.RepeatedInFileFails, ConfigParsing.SetEarlierFails and ConfigParsing.AllowedPairSets state each outcome |
| ConfigParsing.DuplicateKeyInFile | core/config_parser.cpp:298-302 | the same key on two lines of one file is an error unless keysOverrideEnabled, whatever came before |
| ConfigParsing.SecondLineFails | core/config_parser.cpp:249-318 | two lines fail when the first fails, or when the second fails after the first |
| ConfigParsing.AddParsedSets | core/config_parser.cpp:295-316 | a key = value line sets at most the pair it holds |
| ConfigParsing.StepSetsPairOf | core/config_parser.cpp:254-317 | a line that is not a directive sets at most the pair it holds |
| ConfigParsing.UnionAssociates | core/config_parser.cpp:316 | successive map updates compose |
| ConfigParsing.LastValueWins | core/config_parser.cpp:249-318 | reading lines without directives leaves each key at its last assignment and other keys as they were |
| ConfigParsing.IncludeCycleFails | core/config_parser.cpp:113-116 | including the top-level file or a file already included is an error |
| ConfigParsing.IncludeCycleLineFails | core/config_parser.cpp:113-287 | "@include name" for such a file is an error |
| ConfigParsing.CycleDirectiveFails | core/config_parser.cpp:113-287 | any line whose directive names such a file is an error |
| ConfigParsing.DirectiveOfInclude | core/config_parser.cpp:286-288 | a directive does what including its file does, and then restores curLineNum |
| ConfigParsing.AbsoluteIncludeFails | core/config_parser.cpp:127-131 | an included file whose directory starts with '/' or '\\' is an error |
| ConfigEdits.OverrideOne | core/config_parser.cpp:395-407 | an empty value removes the key, any other value sets it, and no other key changes |
| ConfigEdits.OverrideAll | core/config_parser.cpp:420-434 | every key of the new map with an empty value is removed, every other one is set to its new value, and keys not in the new map are unchanged |
| ConfigEdits.OverrideStep | core/config_parser.cpp:422-434 | one more pass of the loop extends the override by one more entry |
| ConfigEdits.RestrictAll | core/config_parser.cpp:422 | the loop has visited every entry at its end |
| ConfigEdits.OverrideAllOne | core/config_parser.cpp:395-434 | overrideKeys with a single entry is overrideKey |
| ConfigEdits.OverrideAllIdempotent | core/config_parser.cpp:420-434 | applying the same overrides twice changes nothing more |
| ConfigEdits.MutexErasedKeys | core/config_parser.cpp:441-482 | the erasure keeps exactly the keys that no pair of sets excludes, at their old values |
| ConfigEdits.EraseMutex | core/config_parser.cpp:441-482 | one pair of mutually exclusive sets erased; ConfigEdits.MutexErasedKeys states which keys survive |
| ConfigEdits.MutexErased | core/config_parser.cpp:441-482 | every pair of sets handled in order; ConfigEdits.MutexErasedKeys proves it keeps exactly the keys no pair excludes |
| ConfigEdits.MutexOverride | core/config_parser.cpp:439-486 | a key with a new non-empty value ends at it, a new empty value removes it, and a key not in the new map survives exactly when no pair excludes it |
| ConfigEdits.Alias | core/config_parser.cpp:377-392 | an IOError exactly when both keys are set; otherwise nothing changes when from is unset, and when it is set its value and used mark move to to |
| ConfigEdits.AliasRoundTrip | core/config_parser.cpp:377-392 | aliasing back undoes an alias when the target was neither set nor used |
| ConfigEdits.AliasKeepsCount | core/config_parser.cpp:383-384 | an alias keeps the number of keys |
| ConfigEdits.StrLessIrreflexive | core/config_parser.cpp:362 | no key sorts before itself in std::map order |
| ConfigEdits.StrLessTransitive | core/config_parser.cpp:362 | std::map order is transitive |
| ConfigEdits.StrLessTotal | core/config_parser.cpp:362 | any two different keys are ordered one way or the other |
| ConfigEdits.Least | core/config_parser.cpp:362 | the first key a std::map iteration visits is in the set and before every other |
| ConfigEdits.FirstFound | core/config_parser.cpp:603-629 | the position of the first of the keys that is set, with none of the earlier ones set; none when none is set |
| ConfigEdits.IntInRange | core/config_parser.cpp:765-782 | succeeds exactly when the value parses to an integer in [min, max], yielding it; otherwise IOError |
| ConfigEdits.CollectFailsAt | core/config_parser.cpp:837-863 | the first piece with an error decides the error of the whole |
| ConfigEdits.CollectPrefixFails | core/config_parser.cpp:837-863 | an error among the first pieces is an error of the whole |
| ConfigEdits.DashedPairsShape | core/config_parser.cpp:831-864 | on success there is one pair per non-blank piece, every number in [min, max] |
| ConfigEdits.DashedPair | core/config_parser.cpp:838-861 | one comma piece: nothing when blank, otherwise two integers in [min, max] split at '-'; ConfigEdits.DashedPairsBadPiece states its error |
| ConfigEdits.DashedPairs | core/config_parser.cpp:831-864 | the pairs of getNonNegativeIntDashedPairs; ConfigEdits.DashedPairsShape and ConfigEdits.DashedPairsErrorIsIO state its result and errors |
| ConfigEdits.DashedPairsBadPiece | core/config_parser.cpp:843-847 | a non-blank piece that does not split at '-' into exactly two parts is an IOError |
| ConfigEdits.DashedPairsErrorIsIO | core/config_parser.cpp:831-864 | every error of getNonNegativeIntDashedPairs is an IOError |
| Config.ConfigParser.constructor | core/config_parser.cpp:11-17 | a new parser is uninitialised with every field empty and the two override flags as given |
| Config.ConfigParser.ReadStreamContent | core/config_parser.cpp:242-320 | reading a file's lines leaves the state the reading specification gives, or reports its error; the name, flags and used keys do not change |
| Config.ConfigParser.ReadStreamLines | core/config_parser.cpp:249-318 | the loop over the lines reaches the state of reading them all, and on success the text read is the lines each followed by a newline |
| Config.ConfigParser.ReadLine | core/config_parser.cpp:249-317 | one pass of the loop changes the state as the line's step says, or reports its error |
| Config.ConfigParser.ReadTrimmedLine | core/config_parser.cpp:253-317 | a trimmed line is skipped, handled as a directive or as a key = value line, as the step says |
| Config.ConfigParser.ReadDirectiveLine | core/config_parser.cpp:258-290 | an '@' line includes the file it names and restores curLineNum, or reports the directive's error |
| Config.ConfigParser.ReadPairLine | core/config_parser.cpp:292-317 | a key = value line is parsed and added under the duplicate-key rules |
| Config.ConfigParser.IncludePath | core/config_parser.cpp:120-125 | the path opened is the base directories concatenated, then the name |
| Config.ConfigParser.ProcessIncludedFile | core/config_parser.cpp:110-141 | including a file changes the state as the include specification says: cycle and absolute-path errors, a missing file is an IOError, and baseDirs is restored |
| Config.ConfigParser.ReadIncludedLines | core/config_parser.cpp:136-140 | the included file is read and the directory pushed for it is popped |
| Config.ConfigParser.InitializeInternal | core/config_parser.cpp:101-107 | the map and contents are cleared, curFilename becomes fileName, and the stream is read |
| Config.ConfigParser.InitializeFromFile | core/config_parser.cpp:57-80 | a second initialisation is a StringError and a missing file an IOError, both changing nothing; otherwise the file's directory is pushed, the file is read and the parser is initialised |
| Config.ConfigParser.InitializeFromStream | core/config_parser.cpp:83-89 | a second initialisation is a StringError changing nothing; otherwise the lines are read and the parser is initialised |
| Config.ConfigParser.InitializeFromMap | core/config_parser.cpp:92-98 | a second initialisation is a StringError keeping the map; otherwise the map becomes kvs |
| Config.ConfigParser.OverrideKey | core/config_parser.cpp:395-407 | the map becomes overrideKey's result: the key removed for an empty value, set otherwise |
| Config.ConfigParser.OverrideKeys | core/config_parser.cpp:420-436 | every entry of newkvs is applied and fileName records the overrides |
| Config.ConfigParser.ApplyOverrides | core/config_parser.cpp:422-434 | the loop applies every entry of newkvs |
| Config.ConfigParser.AnyKeyIn | core/config_parser.cpp:445-467 | the hasA and hasB loops find a key of the set in newkvs exactly when there is one |
| Config.ConfigParser.OverrideKeysMutex | core/config_parser.cpp:439-486 | the mutually exclusive keys are erased pair by pair, then the overrides are applied |
| Config.ConfigParser.OverrideKeysFromFile | core/config_parser.cpp:410-417 | baseDirs is cleared and the file is included as processIncludedFile does |
| Config.ConfigParser.ApplyAlias | core/config_parser.cpp:377-392 | the map and used keys become the alias specification's result, or an IOError when both keys are set |
| Config.ConfigParser.UnsetUsedKey | core/config_parser.cpp:370-374 | the key is no longer used and no other mark changes |
| Config.ConfigParser.MarkAllKeysUsedWithPrefix | core/config_parser.cpp:516-529 | exactly the keys of the map with the prefix are added to the used keys |
| Config.ConfigParser.UnusedKeys | core/config_parser.cpp:566-583 | exactly the keys of the map that are not used, in std::map order |
| Config.ConfigParser.ContainsAny | core/config_parser.cpp:592-600 | true exactly when one of the keys is in the map |
| Config.ConfigParser.Contains | core/config_parser.cpp:586-589 | the key is in keyValues; Config.ConfigParser.ContainsAny and the getters are stated with it |
| Config.ConfigParser.FirstFoundOrFail | core/config_parser.cpp:603-618 | the first of the keys that is set, or an IOError when none is |
| Config.ConfigParser.FirstFoundOrEmpty | core/config_parser.cpp:621-629 | the first of the keys that is set, or the empty string when none is |
| Config.ConfigParser.GetString | core/config_parser.cpp:632-646 | an IOError for a missing key, leaving the used keys alone; otherwise the value, and the key is marked used |
| Config.ConfigParser.GetStringOneOf | core/config_parser.cpp:649-659 | as getString, and an IOError when the value is not one of the possibles |
| Config.ConfigParser.GetStrings | core/config_parser.cpp:662-666 | the value split at ',' |
| Config.ConfigParser.GetInt | core/config_parser.cpp:765-782 | an IOError for a missing key, a value that does not parse, or one outside [min, max]; otherwise the integer |
| Config.ConfigParser.GetNonNegativeIntDashedPairs | core/config_parser.cpp:831-864 | the loop over the comma pieces computes exactly the pairs of the specification, or its IOError |
| Config.FirstFoundAt | core/config_parser.cpp:605-609 | the key found is the first one set |
| Config.FirstFoundNone | core/config_parser.cpp:605-617 | nothing is found when no key is set |
| Elo.IndexInRange | core/elo.cpp:70-71 | entry p * n + y of a flattened n x n matrix lies inside it whenever p and y are below n |
| Elo.LogOnePlusExpX | core/elo.cpp:13-18 | the result is exactly 50 from x = 50 on and log(1 + exp(x)) below it |
| Elo.LogLikelihoodOfWL | core/elo.cpp:36-44 | firstWins times log P(first wins) plus secondWins times log P(second wins); Elo.LogLikelihoodSwap proves reading the record from the other side gives the same value |
| Elo.LogLikelihoodSwap | core/elo.cpp:36-44 | swapping the win counts and negating the rating difference leaves the log-likelihood unchanged |
| Elo.PairsReadOnlyOwnRecords | core/elo.cpp:66-72 | the pair terms of player p depend only on the records of p against others and others against p, never on a diagonal entry or another pair's games |
| Elo.LocalReadsOnlyOwnRecords | core/elo.cpp:58-76 | the local log-likelihood of p is unchanged by any edit of the matrix outside p's row and column |
| Elo.Local | core/elo.cpp:58-76 | the local objective of p; Elo.LocalReadsOnlyOwnRecords proves it reads only p's row and column and Elo.ComputeLocalLogLikelihood computes it |
| Elo.ComputeLocalLogLikelihood | core/elo.cpp:58-76 | the loop's sum equals the local objective: both records of each pair (p, y) with y != p plus one prior record (priorWL, priorWL) against rating 0 |
| Elo.Step | core/elo.cpp:153-179 | one player's move changes only entry x of the ratings and of the step sizes, and a positive step stays positive |
| Elo.StepImproves | core/elo.cpp:160-179 | a move never lowers x's local objective; the rating moves by exactly one step up or down or stays; the step grows by 1.1 after a move and shrinks by 0.8 otherwise |
| Elo.StepIsMove | core/elo.cpp:155-167 | the move compares the objective at the old rating with one step up and one step down |
| Elo.Move | core/elo.cpp:170-179 | the accept-only-if-strictly-better choice; Elo.StepImproves proves it never lowers the objective and Elo.Commit implements it |
| Elo.Sweep | core/elo.cpp:153-184 | after the first k players' moves, players k and later are untouched and all step sizes stay positive |
| Elo.SweepUnfold | core/elo.cpp:153 | players move in order, each seeing the ratings earlier players already changed |
| Elo.MaxOfIsMaximum | core/elo.cpp:152-183 | the accumulated maximum is never negative, bounds every step size, is 0 with no players, and is attained when the steps are positive |
| Elo.Iterate | core/elo.cpp:150-187 | the pass leaves ratings and step sizes as the in-order sweep of all players and returns the largest new step size |
| Elo.PlayerStep | core/elo.cpp:153-179 | one loop body leaves the arrays as Step says and leaves the step sizes of earlier players alone |
| Elo.Commit | core/elo.cpp:170-179 | moves up if that strictly improves, else down if that strictly improves, else restores the old rating, scaling the step by 1.1 or 0.8 |
| Elo.Pass | core/elo.cpp:150-187 | a pass keeps the number of ratings and of step sizes |
| Elo.Passes | core/elo.cpp:190-199 | the outer loop makes no pass when maxIters <= 0 and between 1 and maxIters passes otherwise |
| Elo.Run | core/elo.cpp:190-199 | the state after the outer loop; Elo.RunKeepsStepsPositive and Elo.EarlyStopBelowTolerance state its invariants and stopping rule |
| Elo.EarlyStopBelowTolerance | core/elo.cpp:197-198 | a run that stops before maxIters passes stops because its last pass left every step size below tolerance |
| Elo.PassKeepsShape | core/elo.cpp:150-187 | a pass keeps one rating and one positive step size per player |
| Elo.RepeatKeepsShape | core/elo.cpp:190-199 | repeating passes that keep the shape keeps it |
| Elo.RunKeepsStepsPositive | core/elo.cpp:136-202 | every run keeps one rating and one positive step size per player |
| Elo.ComputeElos | core/elo.cpp:136-202 | the result is the ratings of the run from all ratings 0 and all steps 100; with maxIters <= 0 every rating is 0 |
| Elo.RunPasses | core/elo.cpp:190-199 | the loop leaves the arrays as the run of at most maxIters passes with the early stop |
| Elo.GridElo | core/elo.cpp:117-127 | grid point i lies i - 1500 Elo from the player's rating |
| Elo.GridBounds | core/elo.cpp:109-118 | the grid runs from 1500 below to 1500 above the rating, strictly increasing |
| Elo.Sum | core/elo.cpp:115-122 | the sum of positive weights over a non-empty grid is positive |
| Elo.MomentNonNegative | core/elo.cpp:125-129 | with positive weights and total the second moment is never negative |
| Elo.StdevOfNonNegative | core/elo.cpp:113-130 | with exp positive the normaliser is positive and the value under the square root is never negative |
| Elo.ComputeApproxEloStdevs | core/elo.cpp:100-133 | one entry per player, each the square root of the weighted second moment over the 3001-point grid |
| Elo.PlayerStdev | core/elo.cpp:113-131 | one player's result is the square root of the second moment of its grid |
| Elo.FillRelProbs | core/elo.cpp:114-123 | the buffer holds exp of the change of the local objective at each grid point, and the returned value is their sum |
| Elo.GridPointProb | core/elo.cpp:116-122 | the scratch ratings differ from the input only at the player, and the value is exp of the change of the objective at grid point i |
| Elo.UpdateTwice | core/elo.cpp:119 | writing the player's entry twice leaves only the second write |
| Elo.SecondMoment | core/elo.cpp:125-129 | the loop's sum is the second moment around the rating, each weight divided by the total |

## Left out

- File and stream I/O:
  - `FileUtils::open`, `getline` and `istream` are not modelled.
  - Files are a map from path to lines, and a stream is its sequence of lines.
  - A path missing from the map fails to open, with `IOError`.
- Include termination: each reading member takes a ghost set `names` holding every name an include directive can give. The C++ needs no such set.
- Mutexes and threads: the `std::mutex` around `usedKeys` in `core/config_parser.cpp` is not modelled, and `usedKeys` is a plain set.
- Output and message text are not modelled:
  - `warnUnusedKeys` (it writes to an `ostream` and a `Logger`);
  - `getAllKeyVals`, `lineAndFileInfo`, `getFileName` and `getContents`, which only format or return fields;
  - the text of exception messages. `logMessages` records only the key of each reported override.
- The other typed getters of `ConfigParser` are not modelled. Their work is `istringstream` number parsing and floating-point range and NaN checks:
  - `getBool`/`getBools`/`getEnabled`;
  - `getInt(key)`/`getInts`;
  - `getInt64*`, `getUInt64*`, `getFloat*`, `getDouble*`;
  - `getStringsNonEmptyTrim`.
- Config.ConfigParser.GetInt and Config.ConfigParser.GetNonNegativeIntDashedPairs: the conversion `Global::tryStringToInt` is a parameter `parse`, not an `istringstream` model.
- `ConfigParser`'s copy constructor and destructor are not modelled.
- The state a `ConfigParser` is left in after an exception is not pinned down: `Failure` results leave the fields the contracts do not name.
- These `core/global.cpp` conversions are not modelled, because they are `istringstream`/`stringstream` or C formatting:
  - `intToString`, `tryStringToInt`/`Int64`/`UInt64`/`Float`/`Double`;
  - `vformat`/`strprintf`;
  - `fatalError`, which exits the process;
  - `pauseForKey`, which reads the console;
  - `roundStatic`/`roundDynamic`, which are floating point.
- Hash.Rrmxmx and Hash.Nasam: only the steps of `rrmxmx` after its rotating xor are proved invertible. Bijectivity of the rotating-xor step, and the inverse of `nasam`'s double xor-shift, are not proved.
- `operator<<` of `Hash128` is not modelled, because it is stream output.
- Md5.Get: no known-answer digest is proved. Any concrete digest would be a closed bit-vector computation over 64 steps.
- The word loading of `Md5.Get` is little-endian as RFC 1321 prescribes. The host-endian pointer cast and the `calloc` slack of `core/md5.cpp` are not modelled.
- Elo.ComputeElos, Elo.ComputeApproxEloStdevs and Elo.LogOnePlusExpX are stated over `real` with `exp`, `sqrt` and `log(1 + exp(x))` as parameters. IEEE-double rounding and the numeric values are not modelled.
- The second-derivative helpers and `probWin` of `core/elo.cpp` are not modelled, because they are pure floating-point formulas that nothing modelled calls.
- The `runTests` numeric expectations of `core/elo.cpp` are not modelled.
- The progress line of `computeElos` is not modelled, because it is stream output.
- Integer widths:
  - `int` loop counters and `size_t` indices are unbounded integers;
  - `readMem`'s 64-bit overflow test is stated as a bound of 2^64 on the result;
  - `parseDigits`' `value & 0x7FFFFFFF` guard cannot fire on at most 9 digits.
- Strings and bytes: a C++ `std::string` is modelled as a sequence of `char`, one `char` per byte.
  - A multi-byte UTF-8 character is several positions in the C++ and one position here, so length and index tests (such as `readMem`'s two-character minimum) count characters, not bytes.
  - Only the hashing of strings (`Hash.Widened`) treats each byte as a `bv8` and sign-extends it as the C++ `char` conversion does.

## Findings

| source | as written | input that shows it | evidently intended | confidence | as-written member | corrected member |
|---|---|---|---|---|---|---|
| core/global.cpp:711-715 | `readMem` finds a two-letter suffix with `find_first_of("KB")` and the like, which match ANY of the letters, so a doubled `B` counts as the `KB` suffix | `"5BB"` is read as 5 KiB (5120) | reject `"5BB"`, accepting only the suffixes K/KB, M/MB, G/GB, T/TB, P/PB and B | not executed | MemorySizes.ReadMemAcceptsDoubledB | MemorySizesCorrected.ReadMemCorrectedRejectsDoubledB |
