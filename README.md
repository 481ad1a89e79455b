# dex-analyzer core, modelled in Dafny

dex-analyzer is a Gradle plugin that counts the methods and fields an Android
build references and declares, package by package. It reads each `classes*.dex`
file with its own `DexParser`, and reads each `classes.jar` through javassist.
It inserts every method and field reference into a `PackageTree`, a trie of
package segments with per-node memoised counts. It then renders the tree as a
package list, an indented tree, JSON or YAML, under the `PrintOptions` the
build configured. A ProGuard `Deobfuscator` maps obfuscated class names back to
their clear names before insertion.

This project models that core:

- `java_lang.dfy`: the JVM's 32-bit `Int` arithmetic, signed and unsigned
  widening, and `String.hashCode`.
- `java_string.dfy`: the `kotlin.String` operations the core calls
  (`indexOf`, `substring`, `replace`, `split`, `compareTo`, decimal formatting).
- `dex_format.dfy`: the DEX byte layout as functions of the file contents.
  It covers the magic, the endian tag, the header, the string, type, proto,
  field and method id tables, LEB128 and the string encoding.
- `dex_parser.dfy`: `DexParser` as a class with a cursor over the file.
  Every reader and every parse step is proved to compute the functions of
  `dex_format.dfy`.
- `class_ref.dfy`, `method_ref.dfy`, `output_format.dfy`, `deobfuscator.dfy`,
  `print_options.dfy`: the value types, the option builder and the mapping-file
  reader.
- `package_tree.dfy`: the trie as a datatype. `package_tree_facts.dfy` holds
  what one insertion does to it. `package_tree_counts.dfy` holds what the
  memoised counts evaluate to.
- `child_order.dfy`: the order in which children are printed.
- `tree_printing.dfy`: the four renderings as functions.
- `text_writer.dfy`: the source's appending renderers, proved to write exactly
  those functions.
- `tree_object.dfy`: the mutable `PackageTree` object that ties them together.
- `source_files.dfy`: the pure helpers of the jar reader.

Integers the DEX reader and the hash functions keep in a Kotlin `Int` are
`int32` values, with overflow written out as a wrap modulo 2^32. The package
tree's counts are unbounded integers; see "Left out". Bytes are `byte` values, 0..255. Strings
are sequences of `char`. The `TreeMap` of children is a `map` from segment
name to child node, iterated in ascending key order.

Behaviour the code has, and the model keeps as written:

- `readUnsignedLeb128` accumulates groups most-significant first
  (`result shl 7 or group`), where the LEB128 format puts the least significant
  group first. `LebIsMostSignificantFirst` shows the value it yields for
  `AC 02`.
- `readString` reads into a buffer of three bytes per UTF-16 unit. When no
  NUL byte occurs in that window, the last byte is dropped
  (`StringDropsLastByteAtBound`).
- `parseStrings` seeks to the first offset before building the table, so an
  empty string table is an index error (`StringTableShape`).
- An insertion clears only the method or field memo of the inserted
  dimension, and only on the path nodes above the leaf's parent. The leaf's
  parent and the leaf keep theirs (`AddPathCounters`, `ParentMemoSurvives`).
  The class-count memo is never cleared, so an ancestor whose class count was
  already queried keeps the old count after a new class node is added. The counts
  of a tree built from fresh nodes still equal its true counts
  (`BuiltTreeCounts`).
- The list renderer's "Total declared methods" line prints the declared
  class count (`DeclaredTotalIsClassCount`).
- The YAML renderer stops at `depth > maxTreeDepth`, one level deeper than
  the list, tree and JSON renderers (`YamlNodeEmpty`, `JsonIsWalk`).

## Model

| member | source | states |
|---|---|---|
| JavaLang.Wrap32 | dex-analyzer/src/main/java/me/bytebeats/agp/dex/analyzer/DexParser.kt:364-372 | a Kotlin `Int` result: an in-range value is kept unchanged |
| JavaLang.Wrap32Congruent | dex-analyzer/src/main/java/me/bytebeats/agp/dex/analyzer/DexParser.kt:364-372 | wrapping changes a value by a multiple of 2^32 |
| JavaLang.Wrap32IsResidue | dex-analyzer/src/main/java/me/bytebeats/agp/dex/analyzer/DexParser.kt:364-372 | the wrapped value is the residue modulo 2^32, shifted into the signed range |
| JavaLang.ToSigned32 | dex-analyzer/src/main/java/me/bytebeats/agp/dex/analyzer/DexParser.kt:349-355 | reinterpreting an unsigned 32-bit word as `Int` is the two's-complement wrap |
| JavaLang.ToSigned16 | dex-analyzer/src/main/java/me/bytebeats/agp/dex/analyzer/DexParser.kt:339-343 | `toShort()` of a 16-bit word is the word itself or the word minus 2^16 |
| JavaLang.ZeroExtend16 | dex-analyzer/src/main/java/me/bytebeats/agp/dex/analyzer/DexParser.kt:168-171 | `toInt() and 0xffff` of a `Short` lies in 0..65535 and agrees with it modulo 2^16 |
| JavaLang.ZeroExtendSigned16 | dex-analyzer/src/main/java/me/bytebeats/agp/dex/analyzer/DexParser.kt:183-189 | narrowing a 16-bit index to `Short` and masking it back returns the index |
| JavaLang.StringHashIsPolynomial | dex-analyzer/src/main/java/me/bytebeats/agp/dex/analyzer/MethodRef.kt:57-63 | the iterated `31 * h + c` string hash is the base-31 polynomial of the characters, wrapped once |
| JavaStrings.IndexOf | dex-analyzer/src/main/java/me/bytebeats/agp/dex/analyzer/agp/source/SourceFiles.kt:229-235 | `indexOf` is -1 exactly when the character is absent, else the position of its first occurrence |
| JavaStrings.IndexOfFromFirst | dex-analyzer/src/main/java/me/bytebeats/agp/dex/analyzer/agp/PackageTree.kt:93-117 | `indexOf(c, from)` returns the first occurrence at or after `from` |
| JavaStrings.Substring | dex-analyzer/src/main/java/me/bytebeats/agp/dex/analyzer/agp/source/SourceFiles.kt:229-235 | `substring` succeeds exactly when `0 <= begin <= end <= length`, and then returns the `end - begin` characters between the prefix before `begin` and the suffix from `end` |
| JavaStrings.ReplaceChar | dex-analyzer/src/main/java/me/bytebeats/agp/dex/analyzer/agp/source/SourceFiles.kt:202 | `replace(a, b)` keeps the length and replaces exactly the occurrences of `a` |
| JavaStrings.SplitOn | dex-analyzer/src/main/java/me/bytebeats/agp/dex/analyzer/agp/source/SourceFiles.kt:229-235 | `split` yields at least one part and no part holds the delimiter |
| JavaStrings.JoinOfSplit | dex-analyzer/src/main/java/me/bytebeats/agp/dex/analyzer/agp/source/SourceFiles.kt:229-235 | joining the parts of a split with the delimiter gives the string back |
| JavaStrings.SplitOfJoin | dex-analyzer/src/main/java/me/bytebeats/agp/dex/analyzer/agp/source/SourceFiles.kt:229-235 | splitting a join of delimiter-free parts gives the parts back |
| JavaStrings.StrLessIrreflexive | dex-analyzer/src/main/java/me/bytebeats/agp/dex/analyzer/agp/PackageTree.kt:417-423 | the `compareTo` order of child names is irreflexive |
| JavaStrings.StrLessTransitive | dex-analyzer/src/main/java/me/bytebeats/agp/dex/analyzer/agp/PackageTree.kt:417-423 | the `compareTo` order is transitive |
| JavaStrings.StrLessTotal | dex-analyzer/src/main/java/me/bytebeats/agp/dex/analyzer/agp/PackageTree.kt:417-423 | any two distinct names are ordered one way or the other |
| JavaStrings.StrLessAsymmetric | dex-analyzer/src/main/java/me/bytebeats/agp/dex/analyzer/agp/PackageTree.kt:417-423 | no two names are ordered both ways |
| JavaStrings.NatToStringValue | dex-analyzer/src/main/java/me/bytebeats/agp/dex/analyzer/agp/PackageTree.kt:195-234 | the decimal text of a count reads back as that count |
| JavaStrings.PadRight | dex-analyzer/src/main/java/me/bytebeats/agp/dex/analyzer/agp/PackageTree.kt:195-234 | `%-Ns` formatting keeps the text as a prefix and pads with spaces to at least width N |
| OutputFormats.AllFormats | dex-analyzer/src/main/java/me/bytebeats/agp/dex/analyzer/agp/OutputFormat.kt:15-35 | there are exactly four formats, declared in the order LIST, TREE, JSON, YAML |
| OutputFormats.SameExtension | dex-analyzer/src/main/java/me/bytebeats/agp/dex/analyzer/agp/OutputFormat.kt:15-35 | two formats share a file extension exactly when they are equal or are LIST and TREE (both `.txt`) |
| OutputFormats.ExtensionShape | dex-analyzer/src/main/java/me/bytebeats/agp/dex/analyzer/agp/OutputFormat.kt:15-35 | every extension is a dot followed by a dot-free suffix |
| ClassRefs.ClassRef.constructor | dex-analyzer/src/main/java/me/bytebeats/agp/dex/analyzer/ClassRef.kt:12-16 | a class reference starts with its name and no fields or methods |
| ClassRefs.ClassRef.WithRefs | dex-analyzer/src/main/java/me/bytebeats/agp/dex/analyzer/ClassRef.kt:12-16 | the full constructor stores the name, fields and methods it is given |
| ClassRefs.ClassRef.AddField | dex-analyzer/src/main/java/me/bytebeats/agp/dex/analyzer/ClassRef.kt:17-19 | `addField` appends the field at the end and changes nothing else |
| ClassRefs.ClassRef.AddMethod | dex-analyzer/src/main/java/me/bytebeats/agp/dex/analyzer/ClassRef.kt:21-23 | `addMethod` appends the method at the end and changes nothing else |
| ClassRefs.ClassRef.FieldArray | dex-analyzer/src/main/java/me/bytebeats/agp/dex/analyzer/ClassRef.kt:25 | `fieldArray` is a fresh array holding the fields in insertion order |
| ClassRefs.ClassRef.MethodArray | dex-analyzer/src/main/java/me/bytebeats/agp/dex/analyzer/ClassRef.kt:26 | `methodArray` is a fresh array holding the methods in insertion order |
| ClassRefs.AddMethodTwice | dex-analyzer/src/main/java/me/bytebeats/agp/dex/analyzer/ClassRef.kt:21-23 | the method list keeps duplicates: adding a method twice appends it twice |
| MethodRefs.DeclaredClassName | dex-analyzer/src/main/java/me/bytebeats/agp/dex/analyzer/MethodRef.kt:23-25 | `getDeclaredClassName` is the declaring class descriptor itself |
| MethodRefs.Descriptor | dex-analyzer/src/main/java/me/bytebeats/agp/dex/analyzer/MethodRef.kt:30-41 | the builder loop produces `(` + parameter types + `)` + return type |
| MethodRefs.ConcatContains | dex-analyzer/src/main/java/me/bytebeats/agp/dex/analyzer/MethodRef.kt:30-41 | a character occurs in the concatenated parameter list exactly when it occurs in one of the parameters |
| MethodRefs.RefEquals | dex-analyzer/src/main/java/me/bytebeats/agp/dex/analyzer/MethodRef.kt:43-55 | `equals` holds exactly when class, name, parameter list and return type all agree |
| MethodRefs.HashCode | dex-analyzer/src/main/java/me/bytebeats/agp/dex/analyzer/MethodRef.kt:57-63 | the `31 * h + x` hash loop computes the specified hash of the reference |
| MethodRefs.HashIsPolynomial | dex-analyzer/src/main/java/me/bytebeats/agp/dex/analyzer/MethodRef.kt:57-63 | the hash is `31^3 * h(class) + 31^2 * h(name) + 31 * h(params) + h(return)`, wrapped to 32 bits |
| MethodRefs.EqualRefsHashAlike | dex-analyzer/src/main/java/me/bytebeats/agp/dex/analyzer/MethodRef.kt:43-63 | references that are `equals` have the same `hashCode` |
| Deobfuscation.Deobfuscate | dex-analyzer/src/main/java/me/bytebeats/agp/dex/analyzer/agp/Deobfuscator.kt:22 | a mapped name translates to its clear name; any other name is returned unchanged |
| Deobfuscation.EmptyIsIdentity | dex-analyzer/src/main/java/me/bytebeats/agp/dex/analyzer/agp/Deobfuscator.kt:40 | the `EMPTY` deobfuscator leaves every name unchanged |
| Deobfuscation.MatchClassLineIff | dex-analyzer/src/main/java/me/bytebeats/agp/dex/analyzer/agp/Deobfuscator.kt:39 | a line matches `CLASS_LINE` with groups (clear, obfuscated) exactly when it has the `clear -> obfuscated:` shape |
| Deobfuscation.CommentsAndMembersIgnored | dex-analyzer/src/main/java/me/bytebeats/agp/dex/analyzer/agp/Deobfuscator.kt:39 | comment lines (`#`) and member lines (leading space) never match |
| Deobfuscation.Create | dex-analyzer/src/main/java/me/bytebeats/agp/dex/analyzer/agp/Deobfuscator.kt:43-56 | no mapping file gives `EMPTY`; a file gives the map built from its class lines |
| Deobfuscation.MappingKeys | dex-analyzer/src/main/java/me/bytebeats/agp/dex/analyzer/agp/Deobfuscator.kt:43-56 | an obfuscated name is mapped exactly when some line of the file is a class line for it |
| Deobfuscation.LastLineWins | dex-analyzer/src/main/java/me/bytebeats/agp/dex/analyzer/agp/Deobfuscator.kt:43-56 | when an obfuscated name occurs on several class lines, the last one decides its clear name |
| Deobfuscation.LookupFromClassLine | dex-analyzer/src/main/java/me/bytebeats/agp/dex/analyzer/agp/Deobfuscator.kt:43-56 | every entry of the map comes from a class line of the file |
| PrintOptionsModel.Builder.constructor | dex-analyzer/src/main/java/me/bytebeats/agp/dex/analyzer/agp/PrintOptions.kt:48-61 | a bare builder holds the field initialisers: limits 0, an Android project, LIST, every flag off |
| PrintOptionsModel.Builder.SetIncludeClasses | dex-analyzer/src/main/java/me/bytebeats/agp/dex/analyzer/agp/PrintOptions.kt:63-66 | sets `includeClasses`, keeps the other twelve options, returns the same builder |
| PrintOptionsModel.Builder.SetIncludeClassCount | dex-analyzer/src/main/java/me/bytebeats/agp/dex/analyzer/agp/PrintOptions.kt:68-71 | sets `includeClassCount` only and returns the same builder |
| PrintOptionsModel.Builder.SetIncludeMethodCount | dex-analyzer/src/main/java/me/bytebeats/agp/dex/analyzer/agp/PrintOptions.kt:73-76 | sets `includeMethodCount` only and returns the same builder |
| PrintOptionsModel.Builder.SetIncludeFieldCount | dex-analyzer/src/main/java/me/bytebeats/agp/dex/analyzer/agp/PrintOptions.kt:78-81 | sets `includeFieldCount` only and returns the same builder |
| PrintOptionsModel.Builder.SetIncludeTotalMethodCount | dex-analyzer/src/main/java/me/bytebeats/agp/dex/analyzer/agp/PrintOptions.kt:83-86 | sets `includeTotalMethodCount` only and returns the same builder |
| PrintOptionsModel.Builder.SetPrintHeader | dex-analyzer/src/main/java/me/bytebeats/agp/dex/analyzer/agp/PrintOptions.kt:88-91 | sets `printHeader` only and returns the same builder |
| PrintOptionsModel.Builder.SetOrderByMethodCount | dex-analyzer/src/main/java/me/bytebeats/agp/dex/analyzer/agp/PrintOptions.kt:93-96 | sets `orderByMethodCount` only and returns the same builder |
| PrintOptionsModel.Builder.SetMaxTreeDepth | dex-analyzer/src/main/java/me/bytebeats/agp/dex/analyzer/agp/PrintOptions.kt:98-101 | sets `maxTreeDepth` only and returns the same builder |
| PrintOptionsModel.Builder.SetMaxMethodCount | dex-analyzer/src/main/java/me/bytebeats/agp/dex/analyzer/agp/PrintOptions.kt:103-106 | sets `maxMethodCount` only and returns the same builder |
| PrintOptionsModel.Builder.SetPrintDeclarations | dex-analyzer/src/main/java/me/bytebeats/agp/dex/analyzer/agp/PrintOptions.kt:108-111 | sets `printDeclarations` only and returns the same builder |
| PrintOptionsModel.Builder.SetAndroidProject | dex-analyzer/src/main/java/me/bytebeats/agp/dex/analyzer/agp/PrintOptions.kt:113-116 | sets `androidProject` only and returns the same builder |
| PrintOptionsModel.Builder.SetVerbose | dex-analyzer/src/main/java/me/bytebeats/agp/dex/analyzer/agp/PrintOptions.kt:118-121 | sets `verbose` only and returns the same builder |
| PrintOptionsModel.Builder.SetOutputFormat | dex-analyzer/src/main/java/me/bytebeats/agp/dex/analyzer/agp/PrintOptions.kt:123-126 | sets `outputFormat` only and returns the same builder |
| PrintOptionsModel.ToBuilder | dex-analyzer/src/main/java/me/bytebeats/agp/dex/analyzer/agp/PrintOptions.kt:41-46 | `toBuilder` gives a fresh builder whose `build()` equals the options it came from |
| PrintOptionsModel.SetCountFlags | dex-analyzer/src/main/java/me/bytebeats/agp/dex/analyzer/agp/PrintOptions.kt:41-46 | the first four setters of `toBuilder` copy the four inclusion flags |
| PrintOptionsModel.SetHeaderAndLimits | dex-analyzer/src/main/java/me/bytebeats/agp/dex/analyzer/agp/PrintOptions.kt:41-46 | the next four copy total count, header, ordering and depth limit |
| PrintOptionsModel.SetRemaining | dex-analyzer/src/main/java/me/bytebeats/agp/dex/analyzer/agp/PrintOptions.kt:41-46 | the last five copy method limit, declarations, project kind, verbosity and format |
| PrintOptionsModel.DefaultBuilder | dex-analyzer/src/main/java/me/bytebeats/agp/dex/analyzer/agp/PrintOptions.kt:146-161 | `builder()` starts with method counts on, depth `Int.MAX_VALUE`, method limit -1, an Android project, LIST |
| PrintOptionsModel.BuildIsSnapshot | dex-analyzer/src/main/java/me/bytebeats/agp/dex/analyzer/agp/PrintOptions.kt:128-142 | `build()` copies the options: a later setter changes the next build and not an earlier one |
| DexFormat.VerifyMagic | dex-analyzer/src/main/java/me/bytebeats/agp/dex/analyzer/DexParser.kt:446-451 | the magic is accepted exactly when it is `dex\n03` + one of `5`, `7`, `8`, `9` + NUL; version 036 and any other length are refused |
| DexFormat.U16At | dex-analyzer/src/main/java/me/bytebeats/agp/dex/analyzer/DexParser.kt:339-343 | an unsigned 16-bit read puts the high byte first in big-endian order and second in little-endian order |
| DexFormat.Int32RoundTrip | dex-analyzer/src/main/java/me/bytebeats/agp/dex/analyzer/DexParser.kt:349-355 | reading an `Int` back from its 4-byte encoding, in either byte order, gives the value |
| DexFormat.BytesOfInt32 | dex-analyzer/src/main/java/me/bytebeats/agp/dex/analyzer/DexParser.kt:349-355 | any 4 bytes are the encoding of the `Int` read from them: no two byte strings read alike |
| DexFormat.SwappedTagReadsNative | dex-analyzer/src/main/java/me/bytebeats/agp/dex/analyzer/DexParser.kt:70-81 | a file whose tag reads as `REVERSE_ENDIAN_CONSTANT` in little-endian order reads `ENDIAN_CONSTANT` in big-endian order |
| DexFormat.LebEnd | dex-analyzer/src/main/java/me/bytebeats/agp/dex/analyzer/DexParser.kt:364-372 | a LEB128 value ends at the first byte below 0x80; with none, the read runs off the file |
| DexFormat.Leb128At | dex-analyzer/src/main/java/me/bytebeats/agp/dex/analyzer/DexParser.kt:364-372 | a successful read consumes at least one byte and stays within the file |
| DexFormat.LebValueWraps | dex-analyzer/src/main/java/me/bytebeats/agp/dex/analyzer/DexParser.kt:364-372 | the accumulated `Int` is the most-significant-first value of the 7-bit groups, modulo 2^32 |
| DexFormat.LebValueExact | dex-analyzer/src/main/java/me/bytebeats/agp/dex/analyzer/DexParser.kt:364-372 | when that value fits in an `Int`, no wrap happens |
| DexFormat.LebSingleByte | dex-analyzer/src/main/java/me/bytebeats/agp/dex/analyzer/DexParser.kt:364-372 | a byte below 0x80 reads as itself and consumes one byte |
| DexFormat.LebRoundTrip | dex-analyzer/src/main/java/me/bytebeats/agp/dex/analyzer/DexParser.kt:364-372 | the most-significant-first encoding of a non-negative `Int` reads back as that value, consuming exactly its bytes |
| DexFormat.LebIsMostSignificantFirst | dex-analyzer/src/main/java/me/bytebeats/agp/dex/analyzer/DexParser.kt:364-372 | the bytes `AC 02` read as 5634, where standard LEB128 gives 300 |
| DexFormat.FirstZero | dex-analyzer/src/main/java/me/bytebeats/agp/dex/analyzer/DexParser.kt:383-394 | the string length found is the position of the first NUL, or the whole window when there is none |
| DexFormat.ScanFindsFirstZero | dex-analyzer/src/main/java/me/bytebeats/agp/dex/analyzer/DexParser.kt:383-394 | the byte-by-byte read loop stops at the first NUL of the buffer window |
| DexFormat.StringRoundTrip | dex-analyzer/src/main/java/me/bytebeats/agp/dex/analyzer/DexParser.kt:383-394 | a NUL-terminated payload shorter than three bytes per unit reads back exactly, consuming the terminator |
| DexFormat.StringDropsLastByteAtBound | dex-analyzer/src/main/java/me/bytebeats/agp/dex/analyzer/DexParser.kt:383-394 | a payload filling the whole `3 * utf16Len` buffer without a NUL loses its last byte |
| DexFormat.EmptyString | dex-analyzer/src/main/java/me/bytebeats/agp/dex/analyzer/DexParser.kt:383-394 | a string whose length byte is 0 reads as empty and consumes one byte |
| DexFormat.HeaderParseFresh | dex-analyzer/src/main/java/me/bytebeats/agp/dex/analyzer/DexParser.kt:54-104 | the header parses exactly when the file is long enough, the magic is accepted and the endian tag is one of the two constants; the byte order follows the tag |
| DexFormat.StringTableShape | dex-analyzer/src/main/java/me/bytebeats/agp/dex/analyzer/DexParser.kt:114-129 | an empty string table fails; a parsed table has one string per offset, each read at its offset |
| DexFormat.StringOffsetsShape | dex-analyzer/src/main/java/me/bytebeats/agp/dex/analyzer/DexParser.kt:114-123 | the offset array parses exactly when it lies inside the file, and holds the `Int`s stored there |
| DexFormat.StringDataShape | dex-analyzer/src/main/java/me/bytebeats/agp/dex/analyzer/DexParser.kt:124-128 | each parsed string is the string read at the matching offset |
| DexFormat.TypeIdTableShape | dex-analyzer/src/main/java/me/bytebeats/agp/dex/analyzer/DexParser.kt:135-142 | the type id table parses exactly when it lies inside the file; item i is the `Int` at `off + 4i` |
| DexFormat.ProtoHeaderTableShape | dex-analyzer/src/main/java/me/bytebeats/agp/dex/analyzer/DexParser.kt:148-160 | the proto headers parse exactly when they lie inside the file; item i is read at `off + 12i` |
| DexFormat.TypeListShape | dex-analyzer/src/main/java/me/bytebeats/agp/dex/analyzer/DexParser.kt:162-173 | a zero offset gives no parameters; otherwise the list is the `size` 16-bit indices after the size word |
| DexFormat.ProtoIdTableShape | dex-analyzer/src/main/java/me/bytebeats/agp/dex/analyzer/DexParser.kt:148-174 | every parsed proto is its header with its own type list attached |
| DexFormat.FieldIdTableShape | dex-analyzer/src/main/java/me/bytebeats/agp/dex/analyzer/DexParser.kt:180-191 | the field id table parses exactly when it lies inside the file; item i is read at `off + 8i` |
| DexFormat.MethodIdTableShape | dex-analyzer/src/main/java/me/bytebeats/agp/dex/analyzer/DexParser.kt:197-208 | the method id table parses exactly when it lies inside the file; item i is read at `off + 8i` |
| DexFormat.TablesParse | dex-analyzer/src/main/java/me/bytebeats/agp/dex/analyzer/DexParser.kt:37-48 | a successful table parse keeps the header and byte order it was given |
| DexFormat.DexParseShape | dex-analyzer/src/main/java/me/bytebeats/agp/dex/analyzer/DexParser.kt:37-48 | a successful parse has every table sized by its header count |
| DexParsing.DexParser.constructor | dex-analyzer/src/main/java/me/bytebeats/agp/dex/analyzer/DexParser.kt:18-28 | a new parser is at position 0, little-endian, with no header and empty tables |
| DexParsing.DexParser.Seek | dex-analyzer/src/main/java/me/bytebeats/agp/dex/analyzer/DexParser.kt:314-316 | a negative position is refused and the cursor stays; any other position becomes the cursor |
| DexParsing.DexParser.ReadFully | dex-analyzer/src/main/java/me/bytebeats/agp/dex/analyzer/DexParser.kt:322-324 | `readFully` copies the available bytes and advances past them; it fails with EOF when fewer than asked remain |
| DexParsing.DexParser.ReadBytes | dex-analyzer/src/main/java/me/bytebeats/agp/dex/analyzer/DexParser.kt:322-324 | `readBytes` fills the buffer as `readFully` does |
| DexParsing.DexParser.ReadByte | dex-analyzer/src/main/java/me/bytebeats/agp/dex/analyzer/DexParser.kt:330-333 | returns the byte at the cursor and advances by one, or fails with EOF and stays |
| DexParsing.DexParser.ReadShort | dex-analyzer/src/main/java/me/bytebeats/agp/dex/analyzer/DexParser.kt:339-343 | returns the `Short` at the cursor in the file's byte order and advances by two, or fails with EOF |
| DexParsing.DexParser.ReadInt | dex-analyzer/src/main/java/me/bytebeats/agp/dex/analyzer/DexParser.kt:349-355 | returns the `Int` at the cursor in the file's byte order and advances by four, or fails with EOF |
| DexParsing.DexParser.ReadUnsignedLeb128 | dex-analyzer/src/main/java/me/bytebeats/agp/dex/analyzer/DexParser.kt:364-372 | the byte loop returns the LEB value at the cursor and moves past its last byte; it fails with EOF when no end byte exists |
| DexParsing.DexParser.ReadString | dex-analyzer/src/main/java/me/bytebeats/agp/dex/analyzer/DexParser.kt:383-394 | returns the string encoded at the cursor (its LEB128 length, then bytes up to a NUL within three bytes per unit) and moves past it, or fails as that read fails |
| DexParsing.DexParser.ReadPayload | dex-analyzer/src/main/java/me/bytebeats/agp/dex/analyzer/DexParser.kt:385-393 | the buffer loop reads bytes up to the first NUL or the end of the window |
| DexParsing.DexParser.Parse | dex-analyzer/src/main/java/me/bytebeats/agp/dex/analyzer/DexParser.kt:37-48 | `parse` succeeds exactly when the file parses; its tables are then the parsed tables |
| DexParsing.DexParser.ParseTables | dex-analyzer/src/main/java/me/bytebeats/agp/dex/analyzer/DexParser.kt:42-47 | the five table steps in order store the tables of the file, or stop at the first failure |
| DexParsing.DexParser.ParseHeaderItem | dex-analyzer/src/main/java/me/bytebeats/agp/dex/analyzer/DexParser.kt:54-104 | checks the magic, picks the byte order from the endian tag and stores the header fields; errors are the bad magic, the bad tag and EOF |
| DexParsing.DexParser.ReadHeaderFields | dex-analyzer/src/main/java/me/bytebeats/agp/dex/analyzer/DexParser.kt:83-103 | the twenty header words are read in order at their fixed offsets |
| DexParsing.DexParser.ParseStrings | dex-analyzer/src/main/java/me/bytebeats/agp/dex/analyzer/DexParser.kt:114-129 | without a header it fails; otherwise the string table becomes the table at the header's offset, including the empty-table failure |
| DexParsing.DexParser.ParseTypeIds | dex-analyzer/src/main/java/me/bytebeats/agp/dex/analyzer/DexParser.kt:135-142 | without a header it fails; otherwise the type ids become the table at the header's offset |
| DexParsing.DexParser.ParseProtoIds | dex-analyzer/src/main/java/me/bytebeats/agp/dex/analyzer/DexParser.kt:148-174 | without a header it fails; otherwise the protos become the headers with their type lists |
| DexParsing.DexParser.ReadTypeLists | dex-analyzer/src/main/java/me/bytebeats/agp/dex/analyzer/DexParser.kt:162-173 | the loop over protos attaches each proto's parameter list |
| DexParsing.DexParser.ReadTypeList | dex-analyzer/src/main/java/me/bytebeats/agp/dex/analyzer/DexParser.kt:163-171 | a zero offset gives no parameters; otherwise the list at the offset, each index masked to 16 bits |
| DexParsing.DexParser.ParseFieldIds | dex-analyzer/src/main/java/me/bytebeats/agp/dex/analyzer/DexParser.kt:180-191 | without a header it fails; otherwise the field ids become the table at the header's offset |
| DexParsing.DexParser.ParseMethodIds | dex-analyzer/src/main/java/me/bytebeats/agp/dex/analyzer/DexParser.kt:197-208 | without a header it fails; otherwise the method ids become the table at the header's offset |
| DexParsing.DexParser.GetMethodRefs | dex-analyzer/src/main/java/me/bytebeats/agp/dex/analyzer/DexParser.kt:288-290 | `getMethodRefs` returns a fresh empty array, whatever was parsed |
| DexParsing.DexParser.GetFieldRefs | dex-analyzer/src/main/java/me/bytebeats/agp/dex/analyzer/DexParser.kt:296-298 | `getFieldRefs` returns a fresh empty array, whatever was parsed |
| PackageTrees.RefSets.Add | dex-analyzer/src/main/java/me/bytebeats/agp/dex/analyzer/agp/PackageTree.kt:31-43 | adding to one dimension's set adds exactly that element there and leaves the other dimension alone |
| PackageTrees.ClassNameExamples | dex-analyzer/src/main/java/me/bytebeats/agp/dex/analyzer/agp/PackageTree.kt:483-484 | a segment names a class when it starts with an upper-case letter or contains `[]` anywhere (e.g. `a[]b`) |
| PackageTrees.SortedKeysSpec | dex-analyzer/src/main/java/me/bytebeats/agp/dex/analyzer/agp/PackageTree.kt:417-423 | the `TreeMap` iteration lists every child name once, in ascending order |
| PackageTrees.Least | dex-analyzer/src/main/java/me/bytebeats/agp/dex/analyzer/agp/PackageTree.kt:417-423 | the first key of a non-empty key set is below every other key |
| PackageTrees.DescriptorToDot | dex-analyzer/src/main/java/me/bytebeats/agp/dex/analyzer/agp/PackageTree.kt:119-126 | the inserted name is the deobfuscated dotted class name when it holds a dot, and `<unnamed>.` followed by it otherwise |
| PackageTrees.ForgetCount | dex-analyzer/src/main/java/me/bytebeats/agp/dex/analyzer/agp/PackageTree.kt:93-117 | clearing a memo keeps the node's name, children and reference sets |
| PackageTrees.Added | dex-analyzer/src/main/java/me/bytebeats/agp/dex/analyzer/agp/PackageTree.kt:93-117 | adding a reference to the leaf keeps its name, children and memos |
| PackageTrees.SetCounter | dex-analyzer/src/main/java/me/bytebeats/agp/dex/analyzer/agp/PackageTree.kt:45-91 | storing a memo keeps the node's name, children and reference sets |
| PackageTreeFacts.DefaultPackageUnderUnnamed | dex-analyzer/src/main/java/me/bytebeats/agp/dex/analyzer/agp/PackageTree.kt:119-126 | a class without a package is filed under the top-level `<unnamed>` node: its name has exactly the segments `<unnamed>` and the class name |
| PackageTreeFacts.SegmentsAreSplit | dex-analyzer/src/main/java/me/bytebeats/agp/dex/analyzer/agp/PackageTree.kt:93-117 | the recursive `indexOf('.', start)` walk visits exactly the segments of `split(".")` |
| PackageTreeFacts.AddInternalIsAddPath | dex-analyzer/src/main/java/me/bytebeats/agp/dex/analyzer/agp/PackageTree.kt:93-117 | `addInternal` inserts the reference along the path of the name's segments |
| PackageTreeFacts.AddPathMethods | dex-analyzer/src/main/java/me/bytebeats/agp/dex/analyzer/agp/PackageTree.kt:93-117 | after an insertion, a node's method set grows by the reference exactly at the leaf of the path, for the inserted dimension |
| PackageTreeFacts.AddPathFields | dex-analyzer/src/main/java/me/bytebeats/agp/dex/analyzer/agp/PackageTree.kt:93-117 | the same for field sets |
| PackageTreeFacts.AddPathCreatesPath | dex-analyzer/src/main/java/me/bytebeats/agp/dex/analyzer/agp/PackageTree.kt:93-117 | after an insertion every node on the path exists |
| PackageTreeFacts.AddPathCounters | dex-analyzer/src/main/java/me/bytebeats/agp/dex/analyzer/agp/PackageTree.kt:93-117 | an insertion clears the memo of the inserted measure and dimension on every path node above the leaf's parent, and changes no other memo anywhere |
| PackageTreeFacts.AddPathTopCounter | dex-analyzer/src/main/java/me/bytebeats/agp/dex/analyzer/agp/PackageTree.kt:93-117 | at the root the memo is cleared exactly when the path has more than one segment |
| PackageTreeFacts.AddPathWellFormed | dex-analyzer/src/main/java/me/bytebeats/agp/dex/analyzer/agp/PackageTree.kt:93-117 | insertion keeps every child keyed by its own name, with `isClass` decided by `isClassName` |
| PackageTreeFacts.AddPathNoCounters | dex-analyzer/src/main/java/me/bytebeats/agp/dex/analyzer/agp/PackageTree.kt:93-117 | insertion into a tree without memos leaves a tree without memos |
| PackageTreeFacts.AddPathIdempotent | dex-analyzer/src/main/java/me/bytebeats/agp/dex/analyzer/agp/PackageTree.kt:93-117 | inserting the same reference twice gives the same tree as once |
| PackageTreeCounts.AddPathTrueCount | dex-analyzer/src/main/java/me/bytebeats/agp/dex/analyzer/agp/PackageTree.kt:63-117 | an insertion raises the root's true method or field count by one, in the inserted measure and dimension only, exactly when the reference was not yet at the leaf |
| PackageTreeCounts.ConsistentCount | dex-analyzer/src/main/java/me/bytebeats/agp/dex/analyzer/agp/PackageTree.kt:45-91 | when every stored memo is right, the memoised count equals the true count |
| PackageTreeCounts.NoCountersConsistent | dex-analyzer/src/main/java/me/bytebeats/agp/dex/analyzer/agp/PackageTree.kt:45-91 | a tree without memos is consistent |
| PackageTreeCounts.BuiltTreeCounts | dex-analyzer/src/main/java/me/bytebeats/agp/dex/analyzer/agp/PackageTree.kt:45-117 | after inserting into a memo-free tree, every count reads the true count |
| PackageTreeCounts.ParentMemoSurvives | dex-analyzer/src/main/java/me/bytebeats/agp/dex/analyzer/agp/PackageTree.kt:93-117 | the memo of the leaf's parent is kept by an insertion |
| PackageTreeCounts.ClassCountDims | dex-analyzer/src/main/java/me/bytebeats/agp/dex/analyzer/agp/PackageTree.kt:45-61 | the class count ignores the dimension: declared and referenced class counts are equal |
| PackageTreeCounts.FillKeepsCount | dex-analyzer/src/main/java/me/bytebeats/agp/dex/analyzer/agp/PackageTree.kt:45-91 | the memos a query stores change no later count, for any measure and dimension |
| PackageTreeCounts.FillKeepsCountAt | dex-analyzer/src/main/java/me/bytebeats/agp/dex/analyzer/agp/PackageTree.kt:45-91 | the same holds at every node of the tree |
| PackageTreeCounts.FillEquals | dex-analyzer/src/main/java/me/bytebeats/agp/dex/analyzer/agp/PackageTree.kt:453-466 | a query leaves the tree `equals` to what it was (memos are not compared) |
| PackageTreeCounts.TreeEqualsReflexive | dex-analyzer/src/main/java/me/bytebeats/agp/dex/analyzer/agp/PackageTree.kt:453-466 | `equals` is reflexive |
| PackageTreeCounts.TreeEqualsSymmetric | dex-analyzer/src/main/java/me/bytebeats/agp/dex/analyzer/agp/PackageTree.kt:453-466 | `equals` is symmetric |
| PackageTreeCounts.TreeEqualsWithoutMemos | dex-analyzer/src/main/java/me/bytebeats/agp/dex/analyzer/agp/PackageTree.kt:453-466 | on memo-free trees, `equals` is exactly equality of values |
| PackageTreeCounts.FillKeepsTrueCount | dex-analyzer/src/main/java/me/bytebeats/agp/dex/analyzer/agp/PackageTree.kt:45-91 | a query changes no true count |
| PackageTreeCounts.FillConsistent | dex-analyzer/src/main/java/me/bytebeats/agp/dex/analyzer/agp/PackageTree.kt:45-91 | a query on a consistent tree stores only right memos |
| PackageTreeCounts.TrueSumSameNames | dex-analyzer/src/main/java/me/bytebeats/agp/dex/analyzer/agp/PackageTree.kt:63-91 | the parallel sum over children does not depend on their order |
| ChildOrder.PrintableNames | dex-analyzer/src/main/java/me/bytebeats/agp/dex/analyzer/agp/PackageTree.kt:417-427 | the printable filter keeps only children of the node |
| ChildOrder.SortByKey | dex-analyzer/src/main/java/me/bytebeats/agp/dex/analyzer/agp/PackageTree.kt:417-423 | sorting by method count is a permutation |
| ChildOrder.GetChildren | dex-analyzer/src/main/java/me/bytebeats/agp/dex/analyzer/agp/PackageTree.kt:417-423 | `getChildren` lists children of the node |
| ChildOrder.ChildrenMembers | dex-analyzer/src/main/java/me/bytebeats/agp/dex/analyzer/agp/PackageTree.kt:417-427 | a name is listed exactly when it is a child that `isPrintable` accepts |
| ChildOrder.ChildrenByName | dex-analyzer/src/main/java/me/bytebeats/agp/dex/analyzer/agp/PackageTree.kt:417-423 | without `orderByMethodCount` the children are listed in ascending name order |
| ChildOrder.SortByKeyOrder | dex-analyzer/src/main/java/me/bytebeats/agp/dex/analyzer/agp/PackageTree.kt:417-423 | the stable sort of an ascending list orders by method count, ties by name |
| ChildOrder.ChildrenByMethodCount | dex-analyzer/src/main/java/me/bytebeats/agp/dex/analyzer/agp/PackageTree.kt:417-423 | with `orderByMethodCount` the children are the printable ones, ordered by method count then name |
| TreePrinting.PluralizedClasses | dex-analyzer/src/main/java/me/bytebeats/agp/dex/analyzer/agp/PackageTree.kt:429-451 | the word is "class" exactly for a count of 1, else "classes" |
| TreePrinting.PluralizedMethods | dex-analyzer/src/main/java/me/bytebeats/agp/dex/analyzer/agp/PackageTree.kt:429-451 | the word is "method" exactly for a count of 1, else "methods" |
| TreePrinting.PluralizedFields | dex-analyzer/src/main/java/me/bytebeats/agp/dex/analyzer/agp/PackageTree.kt:429-451 | the word is "field" exactly for a count of 1, else "fields" |
| TreePrinting.Spaces | dex-analyzer/src/main/java/me/bytebeats/agp/dex/analyzer/agp/PackageTree.kt:248-250 | the indent for depth k is 2k spaces |
| TreePrinting.ChildPath | dex-analyzer/src/main/java/me/bytebeats/agp/dex/analyzer/agp/PackageTree.kt:195-234 | a child's qualified name is the parent's with `.` and the child's name, or the bare name at the top |
| TreePrinting.WalkBounds | dex-analyzer/src/main/java/me/bytebeats/agp/dex/analyzer/agp/PackageTree.kt:195-298 | a node is visited exactly when its depth is below `maxTreeDepth`; visits are printable and deeper than their node |
| TreePrinting.ListIsWalk | dex-analyzer/src/main/java/me/bytebeats/agp/dex/analyzer/agp/PackageTree.kt:195-234 | the package list prints one line per visited node, in pre-order |
| TreePrinting.DeclaredTotalIsClassCount | dex-analyzer/src/main/java/me/bytebeats/agp/dex/analyzer/agp/PackageTree.kt:156-172 | the "Total declared methods" line prints the declared class count |
| TreePrinting.ThreadedIsJoin | dex-analyzer/src/main/java/me/bytebeats/agp/dex/analyzer/agp/PackageTree.kt:255-291 | the `appended` flag threading puts `, ` exactly between the enabled parts |
| TreePrinting.TreeCountsIsJoin | dex-analyzer/src/main/java/me/bytebeats/agp/dex/analyzer/agp/PackageTree.kt:253-293 | a tree line's counts are the enabled parts joined with `, ` |
| TreePrinting.TreeIsWalk | dex-analyzer/src/main/java/me/bytebeats/agp/dex/analyzer/agp/PackageTree.kt:244-298 | the tree prints one line per visited node, in pre-order |
| TreePrinting.ListAndTreeAgree | dex-analyzer/src/main/java/me/bytebeats/agp/dex/analyzer/agp/PackageTree.kt:156-298 | the list and the tree visit the same nodes in the same order |
| TreePrinting.JsonIsWalk | dex-analyzer/src/main/java/me/bytebeats/agp/dex/analyzer/agp/PackageTree.kt:321-349 | a JSON node exists exactly within the depth limit, and its object names follow the same pre-order walk |
| TreePrinting.JsonWithinLimit | dex-analyzer/src/main/java/me/bytebeats/agp/dex/analyzer/agp/PackageTree.kt:301-349 | within the depth limit the JSON document names the walked nodes in order |
| TreePrinting.YamlNodeEmpty | dex-analyzer/src/main/java/me/bytebeats/agp/dex/analyzer/agp/PackageTree.kt:377-379 | YAML prints nothing exactly beyond `maxTreeDepth` (a `>` test) |
| TreePrinting.YamlIsWalk | dex-analyzer/src/main/java/me/bytebeats/agp/dex/analyzer/agp/PackageTree.kt:376-415 | YAML prints one block per visited node, in pre-order |
| TreePrinting.YamlDepthZero | dex-analyzer/src/main/java/me/bytebeats/agp/dex/analyzer/agp/PackageTree.kt:352-415 | with `maxTreeDepth` 0 the list, tree and JSON renderers print nothing, while YAML still prints the top-level block |
| TreePrinting.Print | dex-analyzer/src/main/java/me/bytebeats/agp/dex/analyzer/agp/PackageTree.kt:145-153 | `print` produces a JSON document exactly for the JSON format, text otherwise |
| TextWriting.TextWriter.PrintPackageList | dex-analyzer/src/main/java/me/bytebeats/agp/dex/analyzer/agp/PackageTree.kt:156-172 | writes the header, the totals and the package list, and leaves the path builder empty |
| TextWriting.TextWriter.AppendListColumns | dex-analyzer/src/main/java/me/bytebeats/agp/dex/analyzer/agp/PackageTree.kt:208-228 | writes the enabled count columns of one list line |
| TextWriting.TextWriter.PrintPackageListRecursively | dex-analyzer/src/main/java/me/bytebeats/agp/dex/analyzer/agp/PackageTree.kt:195-234 | writes the node's list lines and restores the path builder to its old length |
| TextWriting.TextWriter.PrintListChildren | dex-analyzer/src/main/java/me/bytebeats/agp/dex/analyzer/agp/PackageTree.kt:230-232 | the loop over `getChildren` writes each child's lines in turn |
| TextWriting.TextWriter.PrintTree | dex-analyzer/src/main/java/me/bytebeats/agp/dex/analyzer/agp/PackageTree.kt:237-241 | writes the tree of every top-level child |
| TextWriting.TextWriter.AppendSpaces | dex-analyzer/src/main/java/me/bytebeats/agp/dex/analyzer/agp/PackageTree.kt:248-250 | the indent loop writes two spaces per level |
| TextWriting.TextWriter.AppendTreeCounts | dex-analyzer/src/main/java/me/bytebeats/agp/dex/analyzer/agp/PackageTree.kt:253-292 | the four guarded appends write the enabled parts joined with `, ` |
| TextWriting.TextWriter.AppendTreeLine | dex-analyzer/src/main/java/me/bytebeats/agp/dex/analyzer/agp/PackageTree.kt:248-294 | writes one node's indented tree line |
| TextWriting.TextWriter.PrintTreeRecursively | dex-analyzer/src/main/java/me/bytebeats/agp/dex/analyzer/agp/PackageTree.kt:244-298 | writes the node's subtree within the depth limit |
| TextWriting.TextWriter.PrintTreeChildren | dex-analyzer/src/main/java/me/bytebeats/agp/dex/analyzer/agp/PackageTree.kt:295-297 | the loop over `getChildren` writes each child's subtree |
| TextWriting.TextWriter.PrintYaml | dex-analyzer/src/main/java/me/bytebeats/agp/dex/analyzer/agp/PackageTree.kt:352-373 | writes the YAML header lines and the top level |
| TextWriting.TextWriter.AppendYamlCounts | dex-analyzer/src/main/java/me/bytebeats/agp/dex/analyzer/agp/PackageTree.kt:388-402 | writes the enabled count lines of a YAML node |
| TextWriting.TextWriter.AppendYamlChunk | dex-analyzer/src/main/java/me/bytebeats/agp/dex/analyzer/agp/PackageTree.kt:381-412 | writes one node's YAML block and returns the children still to print |
| TextWriting.TextWriter.PrintYamlRecursively | dex-analyzer/src/main/java/me/bytebeats/agp/dex/analyzer/agp/PackageTree.kt:376-415 | writes the node's YAML subtree, nothing beyond the depth limit |
| TextWriting.TextWriter.PrintYamlChildren | dex-analyzer/src/main/java/me/bytebeats/agp/dex/analyzer/agp/PackageTree.kt:413-415 | the loop over the children writes each child's subtree |
| TextWriting.Indent | dex-analyzer/src/main/java/me/bytebeats/agp/dex/analyzer/agp/PackageTree.kt:381-384 | the indent builder holds two spaces per level |
| PackageTreeObject.PackageTree.constructor | dex-analyzer/src/main/java/me/bytebeats/agp/dex/analyzer/agp/PackageTree.kt:26-43 | a new tree is a single node with no references and no memos |
| PackageTreeObject.PackageTree.AddMethodRef | dex-analyzer/src/main/java/me/bytebeats/agp/dex/analyzer/agp/PackageTree.kt:128-130 | inserts a referenced method under its deobfuscated, dotted class name |
| PackageTreeObject.PackageTree.AddFieldRef | dex-analyzer/src/main/java/me/bytebeats/agp/dex/analyzer/agp/PackageTree.kt:132-134 | inserts a referenced field the same way |
| PackageTreeObject.PackageTree.AddDeclaredMethodRef | dex-analyzer/src/main/java/me/bytebeats/agp/dex/analyzer/agp/PackageTree.kt:136-138 | inserts a declared method |
| PackageTreeObject.PackageTree.AddDeclaredFieldRef | dex-analyzer/src/main/java/me/bytebeats/agp/dex/analyzer/agp/PackageTree.kt:140-142 | inserts a declared field |
| PackageTreeObject.PackageTree.GetCount | dex-analyzer/src/main/java/me/bytebeats/agp/dex/analyzer/agp/PackageTree.kt:45-91 | returns the memoised count and stores the memos the evaluation writes |
| PackageTreeObject.PackageTree.Print | dex-analyzer/src/main/java/me/bytebeats/agp/dex/analyzer/agp/PackageTree.kt:145-153 | JSON formats return the document and write no text; the text formats append exactly their rendering |
| SourceFilesModel.ParseBehaviorParametersShape | dex-analyzer/src/main/java/me/bytebeats/agp/dex/analyzer/agp/source/SourceFiles.kt:229-235 | the parameters are the text between the first `(` and the first `)`, split on `;`; a misplaced bracket is an index error |
| SourceFilesModel.ParseMethodReturnTypeShape | dex-analyzer/src/main/java/me/bytebeats/agp/dex/analyzer/agp/source/SourceFiles.kt:237-240 | the return type is the text after the first `)`, or the whole signature without one |
| SourceFilesModel.ReturnTypeOfDescriptor | dex-analyzer/src/main/java/me/bytebeats/agp/dex/analyzer/agp/source/SourceFiles.kt:237-240 | parsing the return type of a method descriptor gives back the method's return type |
| SourceFilesModel.ParametersOfDescriptor | dex-analyzer/src/main/java/me/bytebeats/agp/dex/analyzer/agp/source/SourceFiles.kt:229-235 | parsing a descriptor's parameters splits its concatenated parameter types on `;` |
| SourceFilesModel.ParseOfJoin | dex-analyzer/src/main/java/me/bytebeats/agp/dex/analyzer/agp/source/SourceFiles.kt:229-235 | parameters joined with `;` and bracketed parse back to the same list |
| SourceFilesModel.NoParameterExample | dex-analyzer/src/main/java/me/bytebeats/agp/dex/analyzer/agp/source/SourceFiles.kt:229-235 | `()V` yields one empty parameter |
| SourceFilesModel.StringIntExample | dex-analyzer/src/main/java/me/bytebeats/agp/dex/analyzer/agp/source/SourceFiles.kt:229-235 | `(Ljava/lang/String;I)V` yields `Ljava/lang/String` and `I`, without their `;` |
| SourceFilesModel.TrailingSemicolonExample | dex-analyzer/src/main/java/me/bytebeats/agp/dex/analyzer/agp/source/SourceFiles.kt:229-235 | a trailing `;` yields a trailing empty parameter |
| SourceFilesModel.MalformedExamples | dex-analyzer/src/main/java/me/bytebeats/agp/dex/analyzer/agp/source/SourceFiles.kt:229-235 | a signature without `)` or with `)` before `(` fails with an index error |
| SourceFilesModel.DeclaringClassDescriptor | dex-analyzer/src/main/java/me/bytebeats/agp/dex/analyzer/agp/source/SourceFiles.kt:201-202 | the declaring class is `L` + the name with `/` for `.` + `;` |
| SourceFilesModel.DeclaringClassRoundTrip | dex-analyzer/src/main/java/me/bytebeats/agp/dex/analyzer/agp/source/SourceFiles.kt:201-202 | a dotted class name is recovered from its descriptor |
| SourceFilesModel.ConstructorRefs | dex-analyzer/src/main/java/me/bytebeats/agp/dex/analyzer/agp/source/SourceFiles.kt:211-214 | one `<init>` reference returning `V` per constructor, in order; any bad signature fails the whole class |
| SourceFilesModel.DeclaredMethodRefs | dex-analyzer/src/main/java/me/bytebeats/agp/dex/analyzer/agp/source/SourceFiles.kt:215-219 | one reference per declared method, named after it, in order; any bad signature fails |
| SourceFilesModel.ExtractMethodRefs | dex-analyzer/src/main/java/me/bytebeats/agp/dex/analyzer/agp/source/SourceFiles.kt:201-220 | the appending loops produce exactly the specified reference list |
| SourceFilesModel.MethodRefsOrder | dex-analyzer/src/main/java/me/bytebeats/agp/dex/analyzer/agp/source/SourceFiles.kt:201-220 | the list is the `<clinit>` reference if any, then the constructors, then the methods, all declared by the class |
| SourceFilesModel.FieldRefsOf | dex-analyzer/src/main/java/me/bytebeats/agp/dex/analyzer/agp/source/SourceFiles.kt:222-227 | one field reference per declared field, in order, under the class's simple name |
| SourceFilesModel.ClassesJarIff | dex-analyzer/src/main/java/me/bytebeats/agp/dex/analyzer/agp/source/SourceFiles.kt:40 | a name matches `CLASSES_JAR` exactly when it is a directory prefix followed by `classes.jar` |
| SourceFilesModel.ClassesDexOfForm | dex-analyzer/src/main/java/me/bytebeats/agp/dex/analyzer/agp/source/SourceFiles.kt:39 | a directory prefix, `classes`, any text and `.dex` match `CLASSES_DEX` |
| SourceFilesModel.ClassesDexHasForm | dex-analyzer/src/main/java/me/bytebeats/agp/dex/analyzer/agp/source/SourceFiles.kt:39 | every name matching `CLASSES_DEX` has that form |
| SourceFilesModel.TempFileNameParts | dex-analyzer/src/main/java/me/bytebeats/agp/dex/analyzer/agp/source/SourceFiles.kt:242-252 | the pattern splits at its first `.` into a dot-free prefix and a suffix starting with `.`; no dot is an index error |
| SourceFilesModel.TempFileNamePartsUnique | dex-analyzer/src/main/java/me/bytebeats/agp/dex/analyzer/agp/source/SourceFiles.kt:242-252 | that split is the only one with those properties |

## Left out

- Reading files, ZIP archives and AARs, running D8 and loading classes through javassist are I/O and foreign code. The source-file helpers are modelled on the values javassist would report: class name, initializer, constructors, methods and fields.
- Gradle tasks, workers, the extension's properties and `PrintOptions.fromDexAnalyzeExtension` are build plumbing and are not modelled.
- The `MIN_SDK_VERSION` pattern and the minimum-SDK lookup read the manifest, which is I/O.
- Console output (`println`) in the parser and the workers is left out.
- The JSON renderer's text comes from Gson's `JsonWriter`. The model returns the document structure it writes (objects, arrays, numbers, strings), not its characters.
- The `parallelStream` sums in the count getters are modelled as sequential sums over the children. `TrueSumSameNames` shows that the order of the sum does not matter. Concurrency itself is not modelled.
- UTF-8 (MUTF-8) decoding of DEX strings is left out: strings are kept as their raw bytes.
- `parseClassDefs` and `markInternalClasses` have empty bodies in the source. They are modelled as empty methods with no contract.
- The private query stubs of the parser return empty arrays and are never called. This covers `classNameFromTypeIndex`, `argArrayFromProtoIndex`, `returnTypeFromProtoIndex`, `getExternalReferences` and the external-reference helpers. They are not modelled.
- `Printer.descriptorToDot` is passed to the tree as a function parameter. Printer.kt is not part of this model.
- `Dex.kt` is not part of this model. `FieldRef` is kept as a datatype with its three components.
- `PackageTree.hashCode` is not modelled.
- `Char.isUpperCase` in `isClassName` is modelled for ASCII letters only.
- Strings are sequences of Unicode scalar values, where Java strings are UTF-16 code units. `String.hashCode` (`StringHash`, `MethodRefs.HashCode`) and the `TreeMap` order of child names (`StrLess`, `SortedKeys`) agree with the source only on text within the Basic Multilingual Plane. Outside it, the source hashes and compares surrogate pairs.
- The package tree's counts (`Count`, `CountSum`, `TrueCount`, `TrueSum`) are unbounded. The source's `mapToInt { … }.sum()` and its `Int` memos wrap past 2^31 - 1; the model does not capture that wrap.
- `TreePrinting.PrintPackageList`, `TreePrinting.PrintTree` and `TreePrinting.PrintYaml` read counts without replaying the memos their queries write. `FillKeepsCount` shows that those writes change no count.
- TextWriting.TextWriter.PrintPackageListRecursively: requires `isPrintable` of its node, where the source throws `IllegalStateException` for a non-printable node.
- PackageTreeObject.PackageTree.Print: for JSON it returns the document and writes no text, because the `JsonWriter` layout is not modelled.
- MethodRefs.DeclaredClassName: states only that the getter returns the stored descriptor; the source's getter does nothing more.
