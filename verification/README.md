# Verification of jrs's text and archive transformations

jrs builds JVM projects. The parts of it that rewrite other people's files are loops over bytes, cursors
and lexer states: relocating packages inside class files, editing a TOML manifest in place, reading and
writing JSON, matching globs and expanding placeholders, planning and laying out jars, quoting command
lines, and mirroring resources into an output directory. This project models those parts in Dafny and
proves what they promise, for every input.

Each component is modelled twice where the original is a loop: as a method in the original's own form
(cursors, buffers, class fields), and as a function of its inputs that the method is proved equal to. The
laws are lemmas about those functions: independent definitions (a leftmost, non-overlapping replacement; a
syntax tree of signatures; the language of a wildcard pattern; a template's pieces), round trips, inverse
and frame laws, and invariants over whole runs.

What a file means is defined apart from its readers. Class files, TOML documents, JSON documents and
registries each have a syntax tree and a printer of their own, with every spelling the format allows: the
constants of a pool by their fields, the four kinds of TOML strings over any number of lines, JSON's white
space and escapes, a property continued over lines. What is printed is proved to be read as the tree, and
the edits, merges and relocations are stated on the trees and on the manifest's own strings.

`dafny verify dfyconfig.toml` checks everything.

## How it is laid out

| part | files |
|---|---|
| shared vocabulary | `Wrappers`, `Sequences`, `ByteStrings`, `ByteOrder`, `Text`, `Splitting`, `FirstSeen`, `Numerals`, `Utf8` |
| package relocation | `Relocation`, `Rewriting`, `Signatures`, `SignatureNames`, `SignatureScan`, `SignatureCases`, `RelocatedNames`, `RelocatedTexts`, `PackageNames`, `ClassFiles`, `ClassConstants`, `EntryNames`, `EntryCases`, `EntryText` |
| manifest editor | `TomlKeys`, `TomlLexer`, `TomlScan`, `TomlEntries`, `TomlDoc`, `TomlLines`, `TomlEdit`, `TomlReplace`, `TomlEndings`, `TomlAdd`, `TomlCreate`, `TomlRemove`, `TomlCases` |
| manifests as trees | `TomlValues`, `TomlValueScan`, `TomlValueLines`, `TomlKeyTrees`, `TomlItems`, `TomlDocuments`, `TomlTreeEdits`, `TomlTreeAdditions`, `TomlTreeRefusals` |
| JSON | `Json`, `JsonReader`, `JsonStrings`, `JsonReading`, `JsonLaws`, `JsonTexts`, `JsonDocuments` |
| globs and expansion | `Wildcards`, `Globs`, `Expanding`, `Templates` |
| jars | `Headers`, `JarLayout`, `FatJar`, `FatJarLaws`, `FatJarOrder`, `Registries`, `RegistryImports`, `RegistryKeys`, `RegistryReading`, `RegistryLaws`, `RegistryFiles`, `RegistryTexts`, `FatJarNames` |
| images | `Batches`, `Quoting`, `QuotingSteps`, `QuotingLaws` |
| resources | `Resources`, `ResourceLaws`, `ResourceContents`, `Snapshots` |

Names of jar entries and class files are bytes; manifest, registry and resource text is a string of
Unicode scalar values, with `Utf8` between the two where the original works on encoded bytes.

## Where the code does not do what it is for

The model keeps what the code does. Where that is not what its documentation or its purpose asks, there is
a lemma with an input that shows it, and one that says exactly when the code is right.

- Rewriting a descriptor or signature relocates the class names of its tree and nothing else, except for two
  families (`SignatureScan.RewriteRelocatesSignature`). A match at the very first byte takes a package `I` for
  the type `int`, and a package `La.b` for the start of `La/b/C;`. A member of a class of the unnamed package,
  spelled with dots, is taken for a class of a package: `La.b.C;` for one of `a.b`. The three are in
  `SignatureCases`.
- A class file moves where the references to it point exactly when its name does not read like a descriptor of
  a relocated class, and when what takes the class, or its file, for a package takes both along
  (`EntryNames.ClassMovesWithItsReferences`). The class `ILa/b/C` is such a name, the packages `a.class`, and
  `a` without `a.class`, such packages; the three are in `EntryCases`.
- A replaced TOML value that held a bare carriage return cannot be written back: it is refused
  (`TomlReplace.WritingBackRestores`, and the document of `TomlCases.CarriageReturnIsNotWrittenBack`).
- A last line that is no header for want of a line ending, `[d]` with a bare carriage return, becomes one when
  a section is added after it. A section an edit created is found again exactly when that does not give it a
  second header (`TomlCreate.CreatedSection`, `TomlCases.UnendedHeaderIsRevived`).
- A literal `*` in a path is taken for the pattern's own `*`. Globs are right about a path, whatever the
  pattern, exactly when the path has no `*` (`Globs.GlobsAreExactWithoutStars`, `Globs.StarInPathIsMissed`).
- A merged `spring.factories` may be merged again, with anything, exactly when none of its lines starts as
  a comment or ends in an odd run of backslashes; a continued line can give a key that starts with `#`
  (`RegistryLaws.FactoriesMergeAgain`, `RegistryLaws.CommentedKeyIsLost`).
- A resource synchronization that fails leaves the copies it had made unrecorded; they outlive their
  sources. What is left of earlier resources after a later success is exactly those (`ResourceLaws.SyncMirrors`,
  `ResourceLaws.FailedSyncLeavesAFile`).
- A resource whose name ends in a carriage return is recorded without it, so another file may be deleted in
  its place. The record reads back exactly when every name can be a line (`ResourceLaws.RecordReadsBack`,
  `ResourceLaws.CarriageReturnIsLost`).

## Model

| member | source | states |
|---|---|---|
| Relocation.NewIsWellFormed | src/relocate.rs:79-100 | a table of checked relocations gives rules in which every package and replacement is a nonempty dotted name of name bytes, its slashed form the same name with slashes, all that rewriting relies on |
| Relocation.ValidIsWellFormed | src/manifest/parse.rs:1397-1428 | what the manifest's check lets through: `from` and its replacement are nonempty names of name bytes, dots and slashes exchanged without loss, and they differ |
| Relocation.LongestFromWins | src/relocate.rs:261-295 | at a name, the rule applied is the one with the longest `from` among those of the table that cover and do not exclude the name, earlier ones first among equals; none applies only if none covers it |
| Rewriting.OpensMeaning | src/relocate.rs:321-353 | the walk back over type prefixes accepts exactly when a run of prefixes reaches back to the start of the text or to a byte a class type can follow |
| Rewriting.CanStartAt | src/relocate.rs:321-353 | the backward loop decides, in each context, whether a relocated name may start at a byte |
| Rewriting.Rewrite | src/relocate.rs:236-257 | the scan, copying what lies between replacements, gives the rewritten text, and nothing exactly when no startable position matches; what the manifest's strings make of it is in `RelocatedTexts` |
| Rewriting.RewriteIsLeftmostReplacement | src/relocate.rs:236-257 | the result is the leftmost, non-overlapping choice of matches of the original text, each replaced, whatever the rules send names to - a package relocated into itself included |
| Signatures.MatchIsMove | src/relocate.rs:261-283 | at a class type's name the first match is exactly where the relocator sends that class, or none when it stays |
| Signatures.MatchIsMisreading | src/relocate.rs:261-283 | at the name of a class of the unnamed package something matches exactly when its members, spelled with dots, read as a name in a relocated package |
| RelocatedNames.MatchIsDecided | src/relocate.rs:261-299 | at a name, what is taken out and put in is told by the manifest's strings alone: the longest `from` the name lies in that no exclusion spares it from, the first of equals; an exclusion spares a class and what is nested in it, or, ending in `.*`, all below a package |
| RelocatedTexts.OneEntryMoves | src/relocate.rs:261-299 | a name below the `from` of one checked relocation stays if an exclusion spares it and has its `from` replaced otherwise, in either form and in every context |
| RelocatedTexts.ExcludedClassStays | src/relocate.rs:286-295 | an excluded class stays, alone or followed by `$` and name bytes |
| RelocatedTexts.ExcludedPackageStays | src/relocate.rs:286-295 | every name below a package excluded with `.*` stays |
| RelocatedTexts.ClassMoves | src/relocate.rs:261-299 | the class names of a signature's tree go where the manifest's strings send them |
| RelocatedTexts.ConstantMoves | src/relocate.rs:236-299 | a class's internal name as a constant goes where the manifest's strings send it if and only if it does not read like a descriptor past its start |
| RelocatedTexts.WholeMoves | src/relocate.rs:131-142 | a text that is a name, or begins with one, has that name relocated by the manifest's strings and nothing else |
| RelocatedTexts.ServiceFollowsItsInterface | src/relocate.rs:111-121 | the file `META-INF/services/` and an interface's name follows the interface |
| RelocatedTexts.RegistryTextMoves | src/relocate.rs:144-157 | in a registry file every name that a mark or the start precedes is relocated, and every other byte stays |
| RelocatedTexts.EveryTextIsRuns | src/relocate.rs:321-353 | every text is such a row of names, paths and marks |
| PackageNames.ResourcePathMoves | src/relocate.rs:60-75 | a resource's path with a slash before it, as a constant, moves with its package |
| PackageNames.EntryNameMoves | src/relocate.rs:111-131 | what is relocated of a service file's name, of a name below a version's digits, and of any other |
| PackageNames.ValidPackagesAre | src/manifest/parse.rs:1397-1428 | the packages accepted are exactly identifiers with dots between them |
| PackageNames.NameBytesAre | src/relocate.rs:306-310 | the bytes of a name: letters, digits, `_`, `$` and all bytes of characters beyond ASCII |
| SignatureScan.RewriteRelocatesSignature | src/relocate.rs:236-283 | rewriting the bytes of any descriptor or generic signature relocates every class name in its tree and changes nothing else, if and only if no member of an unnamed package's class reads as a dotted name of a relocated package and no match at the first byte puts its type elsewhere than the relocator does |
| SignatureScan.RewriteRelocatesUnlessMatchedAtStart | src/relocate.rs:236-283 | where no match starts at the first byte the only exception left is the misread member |
| SignatureScan.NoMatchAtStart | src/relocate.rs:321-353 | nothing starts at the first byte when no package begins with `L` or is a primitive's letter |
| SignatureCases.PrimitivePackageRewritesDescriptor | src/relocate.rs:269-274 | a checked relocation of the package `I` rewrites the descriptor of `int` |
| SignatureCases.PackageNamedLikeATypeRewritesDescriptor | src/relocate.rs:321-353 | a package beginning with `L` rewrites the descriptor of a class outside it |
| SignatureCases.MemberOfUnnamedPackageIsMisread | src/relocate.rs:261-283 | relocating `a.b` rewrites `La.b.C;`, a member of the class `a`, which does not move; nothing matches at its first byte |
| ClassFiles.ClassFile | src/relocate.rs:163-230 | the copy-with-cursor walk gives the header, the pool written out again with its texts rewritten, and the rest; or the first problem met, a text over 65535 bytes among them; by the constants' own fields in `ClassConstants` |
| ClassFiles.ReadPoolBytes | src/relocate.rs:163-230 | what is read as the pool is what stands there: written out again it is the same bytes |
| ClassFiles.RelocatedFileReadsBack | src/relocate.rs:163-230 | a relocated file reads back with the same number of entries, the same tag at every index, entries that are no text unchanged, every text rewritten, and header and tail byte for byte as they were |
| ClassFiles.UnmentionedFileIsUnchanged | src/relocate.rs:163-230 | a readable file that mentions no relocated name comes back unchanged |
| ClassConstants.FileIsRelocated | src/relocate.rs:163-230 | a class file printed from its constants by their fields, a Long or Double taking two indices, is relocated to the file of the same constants with exactly the texts rewritten, or refused for the first text that outgrows its entry |
| ClassConstants.UnknownTagIsRefused | src/relocate.rs:190-215 | behind readable constants a byte that is no constant's tag is refused by its value |
| ClassConstants.CutShortIsRefused | src/relocate.rs:190-215 | a file that ends within a constant is refused as truncated |
| EntryNames.RelocateEntryName | src/relocate.rs:111-142 | an entry's new name: a service file by its interface, a versioned path below its version, any other as a whole |
| EntryNames.ClassMovesWithItsReferences | src/relocate.rs:111-142 | for every internal class name outside `META-INF/`, `package-info` included: `entry_name(n + ".class")` is the constant-pool rewriting of `n` plus `.class`, exclusions included, if and only if `n` does not read like a descriptor of a relocated class past its start, and what takes the class or its file for a package takes both along |
| EntryNames.VersionedClassMoves | src/relocate.rs:111-127 | below `META-INF/versions/<digits>/` a class moves as it does at the root, whatever its name |
| EntryCases.FileMovesAlone | src/relocate.rs:131-142 | a package spelled like a class's file name moves the file and not the references to it |
| EntryCases.FileStaysBehind | src/relocate.rs:131-142 | a package named like a class, its exclusion spelled like the file, moves the references and not the file |
| EntryCases.ReferencesMoveAlone | src/relocate.rs:236-257 | relocating `a.b` moves the references to the class `ILa/b/C` and not its file |
| EntryText.RewrittenIsText | src/relocate.rs:135-142 | a UTF-8 name is rewritten to UTF-8, in every context: matches begin and end between characters, and what replaces them is ASCII |
| TomlKeys.ParseBasic | src/edit.rs:693-724 | the loop decodes a basic string, escapes included, and says where it ends |
| TomlKeys.ParseKeyPath | src/edit.rs:647-689 | the loop reads a dotted key: its segments decoded, the quote of the first, the offset past the last |
| TomlKeys.WriteKey | src/edit.rs:728-745 | a key written bare, single-quoted or escaped |
| TomlKeys.KeyReadsBack | src/edit.rs:643-745 | a written key, whatever characters it holds and however it is quoted, reads back as the one segment it was, ending where it ends |
| TomlLexer.Lexer.ScanLine | src/edit.rs:553-602 | the scan leaves the depth and open string of the specification, whose meaning for every kind of value is in `TomlDocuments.DocumentIsRead`, and stops where the code of the line ends |
| TomlLexer.Lexer.ClassifyLine | src/edit.rs:509-548 | a line's kind and the state the next one starts in |
| TomlScan.ScanShift | src/edit.rs:553-602 | the scan of a line from some column is the scan of the rest of the line |
| TomlScan.ScanValue | src/edit.rs:532-547 | in a line, the scan from a complete value ends where the white space after it does, with the lexer closed |
| TomlEntries.ReplacedLine | src/edit.rs:476-483 | an entry given another complete value is the same entry with that value, and nothing after it is read differently |
| TomlEntries.AddedLine | src/edit.rs:728-745 | a new entry's line declares exactly its key, for any key, indentation and value that leaves the lexer closed |
| TomlDoc.Parse | src/edit.rs:215-242 | the document as lines with their endings, each classified in the state it starts in |
| TomlDoc.FindSection | src/edit.rs:246-277 | the section's plain header, or the refusal of a form that cannot be extended |
| TomlDoc.FindEntry | src/edit.rs:313-340 | the line that declares the key, or the refusal of a dotted or repeated one |
| TomlDoc.CheckNotDeclaredElsewhere | src/edit.rs:284-310 | the refusal of a key that lives outside its section |
| TomlDoc.FindContentEnd | src/edit.rs:350-378 | the end lies behind the header or a line that is not blank, with nothing after it in the section but blank lines and the comments set apart for the next header |
| TomlDoc.EntryStyle | src/edit.rs:382-394 | single quotes exactly when there are entries and every one opens its key with such a quote; the white space that begins the last entry, or none |
| TomlDoc.LastIndentIs | src/edit.rs:382-394 | that indent, by its place: the leading white space of an entry no other follows, or empty without entries |
| TomlDoc.Splice | src/edit.rs:455-473 | lines exchanged for new ones, each ending in the document's line ending, one given to an unterminated last line |
| TomlDoc.ReplaceLine | src/edit.rs:476-483 | one line's text exchanged, its ending kept |
| TomlEdit.SectionFound | src/edit.rs:246-277 | a section that is found is named by exactly one header, and none names it when none is found |
| TomlEdit.EntryFound | src/edit.rs:313-340 | an entry that is found is declared by exactly one line of the section, and none declares it when none is found |
| TomlEdit.Upsert | src/edit.rs:60-97 | the whole edit: refused, the value replaced, an entry spliced in, or a section created |
| TomlEdit.Remove | src/edit.rs:109-130 | the entry's lines taken out, those its value continues on with it |
| TomlEdit.CreateSection | src/edit.rs:401-444 | the method writes what its specification inserts, whose laws are the next three rows |
| TomlCreate.NewSectionStands | src/edit.rs:401-444 | a development table goes right below what the dependencies' table holds, a dependencies' table right above the other and its comments; any other section, and one without its neighbour, goes last |
| TomlCreate.CreatedLines | src/edit.rs:401-473 | after an addition that creates the section: the old lines, less blank ones at the end where it goes last, and among them its header, its entry and the blank lines around them; every other line keeps its bytes and kind, but for an ending given to an unterminated last line |
| TomlCreate.CreatedSection | src/edit.rs:401-473 | the section is then found under its one header and holds the key's one entry and no other, nothing elsewhere refusing the key, if and only if no last line became a header for it by being given its ending |
| TomlRemove.RemovedLines | src/edit.rs:109-130 | from any document, a removal takes out the entry and the lines its value continues on, and every other line keeps its bytes and kind |
| TomlRemove.RemovedIsGone | src/edit.rs:109-130 | removing the key again finds nothing to remove, and is not refused |
| TomlCases.CarriageReturnIsNotWrittenBack | src/edit.rs:60-91 | a document whose value holds a carriage return: it is reported when it is replaced, and refused when written back |
| TomlCases.UnendedHeaderIsRevived | src/edit.rs:401-473 | a document whose last line is given the ending that makes it a second header of the section just created; the section is refused from then on |
| TomlLines.ParseUnparse | src/edit.rs:215-242 | lines that could stand in a document, written out, read back as those lines with those kinds |
| TomlLines.ParsedLines | src/edit.rs:215-242 | what is read writes back byte for byte, every line classified by the state it starts in |
| TomlLines.SwapLine | src/edit.rs:476-483 | one line exchanged for another that leaves the lexer as it was: every other line keeps its bytes and kind |
| TomlReplace.ReplacedLines | src/edit.rs:79-91 | after a replacement every other line is what it was, bytes and kind, and the edited one has the value in its old place |
| TomlReplace.WritingBackRestores | src/edit.rs:79-91 | the first edit changes only the value's range, and writing the reported previous value back gives the original document - unless that value held a carriage return, which is refused |
| TomlAdd.AddedLines | src/edit.rs:60-97 | the lines after an addition are the old ones with one entry among them, their bytes and kinds kept but for an ending given to an unterminated last line |
| TomlAdd.RemoveUndoesAdd | src/edit.rs:60-130 | if an entry was added to a document whose lexer ends closed, removing its key gives the original bytes, up to one line ending after an unterminated last line |
| TomlEndings.ClassifyCr | src/edit.rs:509-548 | a line's trailing carriage return does not change what the line is or the state after it |
| TomlKeyTrees.KeyRead | src/edit.rs:647-724 | a dotted key printed from its parts - bare, literal, or with any escapes - reads as the names it means |
| TomlKeyTrees.KeyIsWritten | src/edit.rs:728-745 | a written key is, in single quotes where asked and possible and in double quotes otherwise, a key that means it, quotes and backslashes by their letters and unprintable characters by four digits |
| TomlItems.PairLineRead | src/edit.rs:509-548 | the line a pair begins on reads as its key, and as of several lines exactly when its value and comment are printed over several |
| TomlItems.HeadLineRead | src/edit.rs:620-632 | a header's line reads as its path, in single or double brackets |
| TomlDocuments.DocumentIsRead | src/edit.rs:215-242 | a document printed from blank lines, comments, headers and pairs with values of any kind - four kinds of strings, arrays and inline tables with comments between their items - reads as these items: one line begins each, and all further lines are continuations whatever they say |
| TomlTreeEdits.UpsertReplaces | src/edit.rs:60-97 | a pair whose value is on one line has exactly its value exchanged, and the old one reported |
| TomlTreeEdits.UpsertRefuses | src/edit.rs:79-91 | a pair whose value spans lines is refused |
| TomlTreeEdits.RemoveTakesThePair | src/edit.rs:109-130 | removal gives the document without the pair, all lines of its value included |
| TomlTreeAdditions.UpsertAdds | src/edit.rs:60-97 | a key the section lacks is written below the section's last pair or comment of its own, above its blank lines and the comments set apart for the next header, indented and quoted as the section's pairs are, every other line as it was |
| TomlTreeAdditions.DevelopmentGoesBelow | src/edit.rs:401-444 | a missing `dev-dependencies` goes below what `dependencies` holds, with a blank line around it where there is none |
| TomlTreeAdditions.DependenciesGoAbove | src/edit.rs:401-444 | a missing `dependencies` goes above `dev-dependencies` and the comments set apart for it |
| TomlTreeAdditions.SectionGoesLast | src/edit.rs:401-444 | any other section, or one without its neighbour, goes last in place of the blank lines at the end |
| TomlTreeRefusals.ElsewhereIsRefused | src/edit.rs:284-310 | the first item that gives the key a table of its own, or spells the section out above all headers, decides the refusal |
| TomlTreeRefusals.SectionIsRefused | src/edit.rs:246-277 | so does the first header of the section in double brackets or after another |
| TomlTreeRefusals.KeyIsRefused | src/edit.rs:313-340 | and the first dotted or repeated key of the section |
| Numerals.IntBack | src/json.rs:261-272 | a written 64-bit integer reads back, its bounds included |
| Utf8.EncodedBack | src/json.rs:356-374 | encoded text decodes to itself, strictly |
| Json.Write | src/json.rs:101-136 | the recursive writer appends exactly the pretty-printed value |
| Json.EscapeInto | src/json.rs:356-374 | the loop appends the quoted, escaped string |
| Json.RenderDocument | src/json.rs:93-99 | the document and its final newline |
| JsonReader.Reader.ReadString | src/json.rs:274-308 | the loop over bytes gives the string the grammar's functions give, and the cursor past it, or the same failure |
| JsonReader.Reader.ReadUnicode | src/json.rs:311-325 | four hexadecimal digits as a character, or as the first half of one whose second half follows in an escape of its own; the halves by their arithmetic in `JsonStrings.SpelledStringReadsBack` |
| JsonReader.Reader.ReadValue | src/json.rs:174-200 | one value, by its first byte, the depth counted and limited |
| JsonReader.Reader.ReadArray | src/json.rs:230-250 | the items loop |
| JsonReader.Reader.ReadObject | src/json.rs:202-228 | the members loop |
| JsonReader.ParseDocument | src/json.rs:51-63 | a value with nothing but space around it |
| JsonStrings.SpelledStringReadsBack | src/json.rs:274-336 | a string spelled in any mix of characters, short escapes, `\u` escapes and surrogate pairs, digits in either case, reads as the characters it spells: a character from U+10000 on as the pair of `0xD800` and `0xDC00` with the upper and lower ten bits of what it exceeds that by |
| JsonStrings.WrittenStringReadsBack | src/json.rs:356-374 | a string the writer wrote reads back, wherever it stands |
| JsonReading.ItemsBack | src/json.rs:101-136 | an array's printed items read back in order, or are refused for their depth |
| JsonReading.MemberBack | src/json.rs:202-228 | a printed member reads back: its key, the colon, its value |
| JsonLaws.RenderedParsesBack | src/json.rs:51-136 | a rendered value parses to itself, key order and duplicate keys included, if it nests at most 128 deep; otherwise it is refused for its depth |
| JsonDocuments.DocumentIsRead | src/json.rs:51-336 | a document printed from its tree, with any white space, spellings of strings, numbers and nesting, parses to what the tree means: whole numbers of 64 bits as such, any other number as its text; nested over 128 deep it is refused for that |
| JsonDocuments.TextAfterIsRefused | src/json.rs:51-63 | anything but white space behind the value is refused where it stands |
| JsonTexts.RenderedIsPlain | src/json.rs:93-136 | rendered text holds no control character but line feeds, and neither of the line ends JavaScript had |
| JsonTexts.ListIsLaidOut | src/json.rs:101-136 | the layout of a list, letter by letter |
| JsonTexts.ObjectIsLaidOut | src/json.rs:101-136 | the layout of an object, letter by letter |
| JsonStrings.ShortEscapesAre | src/json.rs:289-302 | the eight two-character escapes, as a table |
| JsonTexts.LoneSurrogateIsRefused | src/json.rs:311-325 | a surrogate without its other half is refused |
| JsonTexts.MismatchedPairIsRefused | src/json.rs:311-325 | a first half followed by an escape that is no second half is refused |
| JsonTexts.UnknownEscapeIsRefused | src/json.rs:289-302 | any other letter behind a backslash is refused |
| Wildcards.SegmentMatches | src/expand.rs:180-202 | the two-pointer loop, backtracking to the last `*` only, ends by a lexicographic measure with the answer of its specification |
| Wildcards.MatchesIsLanguage | src/expand.rs:161-163 | the recursive definition accepts a segment exactly when it can be cut into one run per pattern character, each a run its character covers |
| Wildcards.GreedyIsLanguage | src/expand.rs:180-202 | what the match accepts is in the pattern's language; over a segment without `*` so is nothing else |
| Wildcards.GreedyIsExactWithoutStars | src/expand.rs:187 | the match is right about a segment, for every pattern, if and only if the segment has no `*` |
| Globs.GlobIsLanguage | src/expand.rs:164-178 | with `**` for any number of segments, what a glob matches is in its language, and for a path without `*` nothing else is |
| Globs.GlobsAreExactWithoutStars | src/expand.rs:164-202 | globs are right about a path, for every pattern, if and only if the path has no `*` |
| Globs.StarInPathIsMissed | src/expand.rs:187 | for every path with a `*` there is a pattern whose language it is in and that misses it |
| Expanding.Expand | src/expand.rs:67-116 | the single pass over special characters gives the expansion, or the first failure with its line |
| Templates.EveryTextIsPieces | src/expand.rs:61-66 | every text is pieces that read as themselves, then nothing or a placeholder not closed on its line |
| Templates.ExpansionIsMeaning | src/expand.rs:67-116 | each placeholder becomes its property's value as it is, never read again, each `\$` a dollar, everything else itself; the first unknown name or the unclosed placeholder otherwise |
| Templates.LookupIsFirst | src/expand.rs:67-116 | a name stands for the value of the first property that has it |
| Templates.EscapedExpandsBack | src/expand.rs:67-116 | any text with every `$` written `\$` expands to itself, whatever the properties |
| Templates.ErrorIsOnItsLine | src/expand.rs:67-116 | an error's line is one plus the line breaks before the `${` it is about, and all before that expands |
| Headers.WrapHeader | src/package.rs:110-132 | the byte loop, stepping back to a character's start, ends and writes the folded lines |
| Headers.LinesAreShort | src/package.rs:110-132 | the lines' contents are whole characters that together are `name: value`, and no line exceeds 72 bytes with its newline |
| Headers.LinesAreFull | src/package.rs:110-132 | a line breaks only where the next character would not have fitted |
| Headers.FoldedUnfolds | src/package.rs:110-132 | joining continuation lines gives back `name: value` for every header without a line feed |
| JarLayout.DirectoriesOf | src/package.rs:66-76 | the sorted set of exactly the directories above some name |
| JarLayout.WriteJar | src/package.rs:838-880 | the manifest, then files and directories interleaved by a peeking cursor |
| JarLayout.InterleaveKeepsBoth | src/package.rs:838-880 | every planned file and every directory is written, once, in its order |
| JarLayout.EntriesAreSorted | src/package.rs:838-880 | after the manifest the entries are one strictly sorted sequence if and only if no file's name ends in a slash |
| FatJarOrder.EntryNameKeepsEnd | src/relocate.rs:111-142 | relocation neither gives an entry's name a final slash nor takes one away, so what is no directory stays none |
| FatJarOrder.PlannedNameIsAFile | src/package.rs:278-397 | no name in a fat jar's plan ends in a slash, and none is the manifest's |
| FatJarOrder.AssembleFatJar | src/package.rs:278-397 | planned and then laid out, a fat jar is the manifest and then one strictly sorted sequence of names, each once: a file for exactly every planned name, and exactly the directories above them; it fails only without a main class or for an unreadable jar |
| JarLayout.DirectoriesComeFirst | src/package.rs:838-880 | an entry precedes every entry its name is a proper prefix of, so a directory precedes all it contains |
| JarLayout.AncestorsAreEntries | src/package.rs:66-76 | every file planned, and every directory above it, is an entry |
| FatJar.WriteFatJar | src/package.rs:278-397 | planning jar by jar and entry by entry gives, under every name, what the copies of that name call for, and the warnings; or the first jar that cannot be read |
| FatJar.CollectDirectory | src/package.rs:486-510 | the project's files by their relocated names, the last to go under a name kept |
| FatJarLaws.FirstCopyWins | src/package.rs:285-397 | an ordinary name maps to the project's file, else to the first dependency entry that goes under it, else to nothing |
| FatJarLaws.MergedKeepsEveryCopy | src/package.rs:285-397 | a merged name lists the project's copy, then exactly the dependencies' copies in classpath order, each once |
| FatJarLaws.RefsAreEntries | src/package.rs:520-544 | what reaches the jar is entries of the dependencies that are no directories and not dropped, in order |
| FatJarLaws.NothingIsLost | src/package.rs:285-397 | every such entry is in the plan: merged, standing itself, or hidden by an earlier copy - with a warning if it is a class |
| FatJarLaws.WarningsAreHiddenCopies | src/package.rs:355-375 | every warning is of a hidden class copy, and no copy has two |
| FatJarLaws.ProjectFilesAreKept | src/package.rs:486-510 | a project file that shares its name with no other is in the jar |
| FatJarNames.SharedIsMerged | src/package.rs:590-604 | copies of `META-INF/services/` files and of Spring's handlers, schemas and tooling are appended, `spring.factories` merged by keys and `META-INF/spring/*.imports` by lines: one entry of all copies in order, whatever jars they are in |
| FatJarNames.MergedIsShared | src/package.rs:590-604 | no other name is merged |
| FatJarNames.DroppedIs | src/package.rs:516-546 | what is dropped is exactly: the manifest, the index, module descriptors at the root or below a version, and, directly below `META-INF/`, names ending in `.SF`, `.DSA`, `.RSA` or `.EC` in letters of any case |
| FatJarNames.DroppedGoesNowhere | src/package.rs:516-546 | no entry of the jar has a dropped entry's bytes |
| FatJarNames.DescriptorNames | src/package.rs:703-713 | the two names of an extension module's descriptor |
| FatJarNames.Combine | src/package.rs:606-661 | copies made one in their way |
| Registries.ReadProperties | src/package.rs:666-701 | the pairs of a `.properties` text: comments, separators, continuations by odd runs of backslashes |
| Registries.MergeFactories | src/package.rs:618-641 | every copy's values put under their keys |
| Registries.MergeImports | src/package.rs:642-659 | the union of the copies' lines |
| Registries.MergeAppend | src/package.rs:606-617 | copies one after another, a newline between where one is missing |
| Registries.ExtensionModule.AddDescriptor | src/package.rs:729-742 | both class lists grow by the descriptor's classes, each once, and nothing else changes |
| RegistryFiles.PropertiesAreRead | src/package.rs:666-701 | a properties file printed from its entries - each over any number of continued lines with indentation, backslashes in pairs, comments and blank lines between, the last line continued, ended or not - reads as their keys and values in order |
| RegistryFiles.ListIsRead | src/package.rs:618-641 | a list reads as its words without the space around them |
| RegistryFiles.ImportsAreRead | src/package.rs:642-659 | an imports file reads as what stands on its lines before any `#` |
| RegistryTexts.TwoCopiesAreOne | src/package.rs:618-641 | two copies with an entry under one key, written over any lines, make one line: the key, and the words of both once each |
| RegistryTexts.DescriptorIsLaidOut | src/package.rs:744-758 | the merged descriptor, letter by letter |
| FirstSeen.UnionIsFirstSeen | src/package.rs:642-659 | adding what is not there yet keeps each value once, in the order of first places, and loses none |
| RegistryImports.ImportsKeepEveryLine | src/package.rs:642-659 | the merged lines are each copy's lines without comments, once each, in the order first seen |
| RegistryImports.ImportsMergeAgain | src/package.rs:642-659 | merging a merged file with further copies is merging all the copies |
| RegistryKeys.FactoriesKeepEverything | src/package.rs:618-641 | each key once and in first-seen order, with the union of the values any copy gives it |
| RegistryLaws.FactoriesMergeAgain | src/package.rs:618-701 | a merged `spring.factories` merges again with any further copies as all copies at once, if and only if none of its lines is skipped as a comment or continued |
| RegistryLaws.CommentedKeyIsLost | src/package.rs:666-701 | a key beginning with `#`, from a continued line, is lost on merging again |
| RegistryLaws.AppendedAppendsAgain | src/package.rs:606-617 | appending to an appended file is appending all the copies |
| RegistryLaws.AppendedKeepsLines | src/package.rs:606-617 | the lines of an appended file are those of its copies: none runs into another |
| Batches.BatchJars | src/image.rs:110-128 | the runs concatenate to the jars, none is empty, each is within the budget or one jar, and no other such split has fewer |
| Batches.TotalIsBytes | src/image.rs:110-130 | a run costs the bytes of its jars and three more for each |
| Quoting.BatQuote | src/image.rs:433-462 | the loop counting backslashes gives the quoted argument |
| QuotingLaws.ArgumentReadsAlone | src/image.rs:433-462 | for every string, what `cmd` and the C run-time's rules make of its quoted form is exactly that one argument |
| QuotingLaws.ArgumentsReadBack | src/image.rs:396-425 | a command line of quoted arguments, each after a space, splits into exactly those arguments |
| QuotingLaws.QuotedWhenNeeded | src/image.rs:433-462 | an argument is put in quotes exactly when it is empty or has white space or a character `cmd` acts on, and its percent signs are doubled |
| Resources.Workspace.SyncResources | src/project.rs:439-487 | one synchronization changes the directory and the record as its specification says, whose contents, failures and counts are in `ResourceContents` |
| ResourceLaws.RecordReadsBack | src/project.rs:449-481 | the record reads back as the names it was written from if and only if each can be a line |
| ResourceLaws.SyncMirrors | src/project.rs:439-487 | over any run of synchronizations, failed ones among them, and of other tools' writes and deletions: after each success the record is the current names, every current resource is there, one that has gone is there exactly if a failed synchronization left it, and all other files are as the other tools left them |
| ResourceLaws.RunKeeps | src/project.rs:439-487 | what every step of such a run keeps, for every name |
| ResourceLaws.NoStrays | src/project.rs:439-487 | without a failed synchronization nothing is left over |
| ResourceLaws.SyncHolds | src/project.rs:393-417 | after a success each file is as the copy of its resource determines it; what that is, is in `ResourceContents.SyncWrites` |
| ResourceContents.SyncWrites | src/expand.rs:120-146 | after a success an expanded resource's file holds the UTF-8 of what the text in its source expands to, and any other its source's bytes, or what it held when it was up to date |
| ResourceContents.SyncFails | src/expand.rs:120-146 | a synchronization fails exactly when some expanded resource is no UTF-8 text or has a placeholder that stands for nothing, and with the first such |
| ResourceContents.SyncCounts | src/project.rs:439-487 | the numbers reported are those of the files written and of the files that went |
| ResourceContents.UnsafeClimbsOut | src/project.rs:454-472 | a recorded name is not followed exactly when it is empty or climbs out by a `..` between slashes |
| ResourceContents.RecordIsSorted | src/project.rs:439-487 | the record holds the names in the order of their bytes |
| ResourceLaws.RemovalIs | src/project.rs:454-472 | exactly the recorded files that are safe to follow and no longer resources are removed |
| ResourceLaws.FailedSyncLeavesAFile | src/project.rs:393-417 | a synchronization that fails after copying leaves a file that a later success does not remove |
| ResourceLaws.CarriageReturnIsLost | src/project.rs:454-472 | a resource named with a final carriage return stays, and another tool's file is deleted in its place |
| Snapshots.FirstDifference | src/project.rs:544-559 | nothing exactly when the pictures are equal; otherwise the smallest path of a file added, removed or changed |
| Snapshots.PathLessIs | src/project.rs:544-559 | smaller means by the first component that differs, a directory before what is in it |

## Left out

- ClassFiles.ClassFile: does not model the 16-bit width of the entry index, which only a pool of 65535 entries whose last is a Long or Double could overflow.
- EntryNames.ClassMovesWithItsReferences: names under `META-INF/` themselves, which no class has; below a release's directory `EntryNames.VersionedClassMoves` holds.
- FatJar.WriteFatJar: an entry is a directory when its name ends in a slash, as archives mark it; the archive reader's own test is not part of this model.
- TomlEdit.Upsert: columns are characters where the program's are bytes; the characters it looks for are ASCII, so the cuts are the same.
- TomlAdd.RemoveUndoesAdd: asks, as the editor does, for a document and a value that leave no string or bracket open; a section the edit had to create is not undone by removing the key, since its header stays; what it leaves is in `TomlCreate`.
- TomlCreate.CreatedSection: asks that nothing is open at the end of the document or of the value, as for an added entry, and that the section's name is a bare key, as `dependencies` and `dev-dependencies` are.
- JsonDocuments.DocumentIsRead: the reader is lenient about numbers and `\u` digits; that it refuses every text outside RFC 8259 is not claimed.
- TomlDocuments.DocumentIsRead: lines that are no blank line, comment, header or pair, and indentation other than spaces and tabs; for documents with such lines the laws over lines hold (`TomlLines`, `TomlReplace`, `TomlAdd`, `TomlCreate`, `TomlRemove`).
- RegistryFiles.PropertiesAreRead: a text that ends in a carriage return without its line feed.
- FatJarNames.Combine: malformed UTF-8, which the program replaces before it merges by keys or by lines.
- FatJarLaws.NothingIsLost: an entry relocated onto the merged extension-module descriptor's own name would give way to that descriptor.
- Headers.FoldedUnfolds: lines end in a line feed, as the program writes them; a carriage return in a value is a character like any other.
- Resources.Workspace.SyncResources: file sizes and times are a set of names taken to be up to date; failures of the file system itself, and a directory standing where a file is to be removed, are not modelled.
- Snapshots.FirstDifference: how a snapshot is taken; its entries come sorted, each path once.
- Error messages: failures are constructors carrying what the messages carry, not their wording; the list of known properties in an unknown placeholder's message is not modelled.
- Compression, raw copying and the reading of archives: an entry is a name, and unreadable jars are one case.
- Where relocation is called while a jar is written: on registry text (`RelocatedTexts.RegistryTextMoves`) and on the main class (`RelocatedTexts.WholeMoves`).
- The rest of `JarManifest::render`, class-path URLs, thin, sources and Javadoc jars.
- `cmd`'s operators outside quotes and its variable expansion, beyond the doubling of percent signs.
- JDK tools, launchers' fixed text, network clients, lock files, argument parsing and configuration.
