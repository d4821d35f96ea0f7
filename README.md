# Solidity function-signature database and contract statistics, in Dafny

This project models two helper programs of a repository that collects verified Solidity smart
contracts, and proves properties of the model.

**The function-signature database** (`utils/old/create_function_signature_db.py`) walks a
directory of `.sol` files. In each file it finds every `function name(type arg, ...)` declaration
header with a regular expression. It normalises each header to its canonical text
`name(type1,type2[],...)`:

- parameter names and white space are dropped;
- the aliases `uint`, `int` and `byte` become `uint256`, `int256` and `bytes1`.

It then hashes the canonical text with Keccak-256. It files the text under the first four bytes
of the digest, which is the function selector. Finally it writes the database as a JSON object
from the selector's hexadecimal text to the list of signatures with that selector.

The model is split by concern:

- **Regular expressions.** Each one is written out as a deterministic scanner over the text:
  - `SolidityLexer`: the character classes, plus the greedy `[0-9]*`, `\s*` and `(\[[0-9]*\])*` runs;
  - `SolidityTypes`: the type alternations with their `(?![a-z0-9])` look-ahead;
  - `FunctionSignature`: the name, argument and header expressions;
  - `RawFunctionGrammar`: the argument, argument-list and header expressions written
    declaratively, as where each part lies in the text, and `re.findall` over declarations;
  - `ArgumentScan`: the `re.findall` scan of argument types on a declared parameter list.

  The recognisers are proved to agree with the declarative reading in both directions:
  - `RunEndOf` for the greedy runs;
  - `SubTypeEndFinds` for one array suffix;
  - `MatchTypeIsAlternation` for the type alternation;
  - `MatchArgumentIsArgument`, `MatchArgumentTailIsTail`, `MatchArgumentListIsList` and
    `MatchRawFunctionIsHeader` for the argument and header expressions;
  - `FindHeadersIsFindall` for the declaration scan.

  The argument-type scan is pinned down on canonical lists (`ScanCanonicalList`) and on declared
  lists whose parameter names hold no type word (`ScanDeclared`); "## Left out" says what
  remains.
- **Normaliser.** `SignatureNormalizer` holds the normaliser and its canonical-form proofs.
  `SignatureExamples` checks concrete inputs against it.
- **Selector and hex key.** `Selectors` holds the UTF-8 encoding, the selector and the
  hexadecimal key.
- **Database build.** `SignatureRegistry` holds the build loop as imperative methods. The methods
  are proved against a fold over the declarations.

**The statistics script** (`utils/stats/stats.js`) reads the `contracts.json` summary of each
source folder. The summary has one JSON object per line. For every entry without an `err`, the
script counts:

- the compiler version, in the `Counter` class;
- the contract name;
- the date.

It can also list the most frequent keys of a counter, and sort `m/d/yyyy` date texts
chronologically.

- **Counters.** `Counters` has a `Counter` class with the dictionary, the keys in first-insertion
  order, and a ghost history of added names. The counts are proved against that history.
- **Summary processing.** `SummaryStats` holds:
  - the JSON values;
  - `readJsonLines`;
  - the `Stats` class, whose per-entry dispatch is proved against a specification function of the
    entries.
- **Date sorting.** `DateSort` sorts an `array<string>` in place. The model proves that the result
  is sorted, that it is a permutation of the input, and that the comparator raises a TypeError on
  a date without a day.
- **Shared definitions.** `JsStrings` holds the JavaScript string operations used by the script
  (`split`, `join`, `trim`, `padStart`, and `<` on strings). `Outcomes` holds `Option` and
  `Result`.

## Model

| member | source | states |
|---|---|---|
| SolidityLexer.RunEnd | utils/old/create_function_signature_db.py:35-38 | a greedy run of one character class: everything scanned is in the class and the next character (if any) is not |
| SolidityLexer.RunEndOf | utils/old/create_function_signature_db.py:35-38 | the greedy run is unique: any stretch in the class followed by a character outside it is where the run ends |
| SolidityLexer.SubTypeEnd | utils/old/create_function_signature_db.py:40-44 | what is consumed is one array suffix `[`, digits, `]`; the converse is SubTypeEndFinds |
| SolidityLexer.SubTypeEndFinds | utils/old/create_function_signature_db.py:40-44 | a complete `[digits]` at i is consumed whole, so a suffix is found exactly when one is there |
| SolidityLexer.SubTypesEndMaximal | utils/old/create_function_signature_db.py:138 | the repeated suffix scan stops only where no further `[digits]` starts |
| SolidityLexer.SubTypesCharacters | utils/old/create_function_signature_db.py:40-44 | the suffixes consist of brackets and digits only |
| SolidityLexer.SubTypesEmbedded | utils/old/create_function_signature_db.py:107-108 | a suffix text placed inside a longer text (not followed by `[`) is scanned back exactly |
| SolidityTypes.InPatternsMember | utils/old/create_function_signature_db.py:13-21 | a word is in a type list exactly when one of its patterns (`uint8`…`uint256`, `bytes1`…`bytes32`, …) matches it |
| SolidityTypes.VocabularyIsLowerAlnum | utils/old/create_function_signature_db.py:23-33 | every type word is a non-empty `[a-z0-9]` run, which is what makes the look-ahead a maximal run |
| SolidityTypes.CanonicalIsType | utils/old/create_function_signature_db.py:23-33 | every canonical type word is also accepted by the type alternation |
| SolidityTypes.MatchTypeIsAlternation | utils/old/create_function_signature_db.py:23-33 | the scanner finds t at i exactly when t is one of the words and is not followed by `[a-z0-9]` (both directions) |
| SolidityTypes.AliasWords | utils/old/create_function_signature_db.py:15 | the aliases are exactly `uint`, `int` and `byte` |
| SolidityTypes.AliasesNotCanonical | utils/old/create_function_signature_db.py:29-33 | no alias is a canonical type word |
| SolidityTypes.AliasTargetsCanonical | utils/old/create_function_signature_db.py:125-133 | `uint256`, `int256` and `bytes1` are canonical |
| SolidityTypes.ToCanonicalTypeIntoCanonical | utils/old/create_function_signature_db.py:125-133 | to_canonical_type maps every type word to a canonical one |
| SolidityTypes.ToCanonicalTypeFacts | utils/old/create_function_signature_db.py:125-133 | a word changes exactly when it is an alias; the result is never an alias; the map is idempotent and fixes canonical words |
| FunctionSignature.LastIndexOf | utils/old/create_function_signature_db.py:60 | the last occurrence of a character in a range, which is what the greedy `.*\(` and `.*\)` select |
| FunctionSignature.MatchFromName | utils/old/create_function_signature_db.py:59-63 | a match from a name start yields a valid name and an argument list without `(` |
| FunctionSignature.ExtractFunctionName | utils/old/create_function_signature_db.py:58-71 | on success the name is a valid identifier other than `function`, and the argument list holds no `(` |
| FunctionSignature.MatchArgument | utils/old/create_function_signature_db.py:46-55 | an argument match is non-empty and contains no parenthesis; its exact reading is MatchArgumentIsArgument |
| FunctionSignature.MatchArgumentList | utils/old/create_function_signature_db.py:74-79 | an argument list match ends at a `)` with no parenthesis before it; its exact reading is MatchArgumentListIsList |
| FunctionSignature.MatchRawFunction | utils/old/create_function_signature_db.py:74-79 | a header match starts at i with the keyword, white space, a name, `(`, parenthesis-free arguments and `)`; its exact reading is MatchRawFunctionIsHeader |
| FunctionSignature.ExtractOnHeader | utils/old/create_function_signature_db.py:58-71 | on a header text, extraction returns the header's name and argument text, or "Bad function name" when the name is `function` |
| FunctionSignature.RawSignatureIsHeader | utils/old/create_function_signature_db.py:82-92 | is_raw_function_signature holds exactly when the whole text is one header whose name is not `function` |
| FunctionSignature.FindHeaders | utils/old/create_function_signature_db.py:99 | findall's matches are headers, from left to right, without overlap; that none is missed is FindHeadersIsFindall |
| FunctionSignature.HeaderTexts | utils/old/create_function_signature_db.py:99-100 | each returned declaration is the exact text of its match |
| FunctionSignature.ExtractedAreHeaders | utils/old/create_function_signature_db.py:95-100 | extract_function_name never fails with "Did not match function name" on a declaration found in code |
| FunctionSignature.HeaderMatchesNamePattern | utils/old/create_function_signature_db.py:58-65 | every header text matches the name pattern |
| RawFunctionGrammar.MatchArgumentIsArgument | utils/old/create_function_signature_db.py:46-55 | the argument recogniser ends at e exactly when a type word, array suffixes, at least one space and a name not continued by the next character span the text up to e |
| RawFunctionGrammar.MatchArgumentTailIsTail | utils/old/create_function_signature_db.py:74-79 | the recogniser of `(\s*,\s*ARG\s*)*\s*\)` ends at c exactly when further arguments, each after white space and a comma, and then `)` at c are there |
| RawFunctionGrammar.MatchArgumentListIsList | utils/old/create_function_signature_db.py:74-79 | the argument-list recogniser ends at c exactly when an empty list or a comma-separated list of arguments closes at c |
| RawFunctionGrammar.MatchRawFunctionIsHeader | utils/old/create_function_signature_db.py:74-79 | the header recogniser at i finds h exactly when the keyword, white space, a name, `(` and an argument list closing at h.closeParen lie where h says |
| RawFunctionGrammar.FindHeadersIsFindall | utils/old/create_function_signature_db.py:95-100 | every reported header is the match at its own start, and every position where a header matches lies inside a reported one: no non-overlapping match is missed |
| ArgumentScan.ScanSkips | utils/old/create_function_signature_db.py:136-149 | positions where no type word starts add nothing: the scan resumes after them |
| ArgumentScan.MatchTypeExtend | utils/old/create_function_signature_db.py:136-139 | text after a word that starts outside `[a-z0-9]` does not change the type match, as the look-ahead reads only one character |
| ArgumentScan.ScanParameter | utils/old/create_function_signature_db.py:136-149 | one declared parameter contributes exactly its type and suffixes, and the scan goes on after its separator |
| ArgumentScan.ScanDeclared | utils/old/create_function_signature_db.py:136-149 | on a parameter list declared as ARGUMENT_REGEX describes, with no type word inside a name, the scan returns exactly the declared (type, suffixes) pairs in order |
| SignatureNormalizer.ScanArgumentTypes | utils/old/create_function_signature_db.py:136-149 | findall over the argument list yields type words with well-formed array suffixes; which ones is ScanDeclared and ScanCanonicalList |
| SignatureNormalizer.CanonicalArgumentsAreCanonical | utils/old/create_function_signature_db.py:151-154 | canonicalising the scanned arguments gives canonical types with their suffixes |
| SignatureNormalizer.CanonicalArgumentsFixed | utils/old/create_function_signature_db.py:151-154 | canonical arguments are left as they are |
| SignatureNormalizer.JoinIsCanonicalList | utils/old/create_function_signature_db.py:103-115 | joining canonical arguments with `,` gives a list the canonical expression accepts |
| SignatureNormalizer.ScanCanonicalList | utils/old/create_function_signature_db.py:136-149 | scanning a canonical list reads back canonical arguments whose join is the list itself |
| SignatureNormalizer.SignatureShape | utils/old/create_function_signature_db.py:103-115 | `name(list)` with a canonical or empty list is a canonical signature |
| SignatureNormalizer.NormalizedIsCanonical | utils/old/create_function_signature_db.py:147-155 | every normalised signature is canonical and begins with the extracted name |
| SignatureNormalizer.CanonicalCharacters | utils/old/create_function_signature_db.py:103-115 | a canonical signature is ASCII without white space |
| SignatureNormalizer.ExtractOnCanonical | utils/old/create_function_signature_db.py:58-71 | the name pattern splits a canonical signature into its name and its argument list |
| SignatureNormalizer.CanonicalFixpoint | utils/old/create_function_signature_db.py:147-155 | a canonical signature normalises to itself (or to "Bad function name" if it is named `function`) |
| SignatureNormalizer.RejoinArguments | utils/old/create_function_signature_db.py:149-155 | scan, canonicalise and join returns a canonical list unchanged |
| SignatureNormalizer.NormalizeIdempotent | utils/old/create_function_signature_db.py:147-155 | normalising a normalised signature gives it back |
| SignatureExamples.CanonicalArrayAccepted | utils/old/create_function_signature_db.py:118-122 | `foo(uint256[])` is canonical |
| SignatureExamples.EmptyArgumentsAccepted | utils/old/create_function_signature_db.py:118-122 | `foo()` is canonical |
| SignatureExamples.AliasRejected | utils/old/create_function_signature_db.py:118-122 | `foo(uint)` is not canonical |
| SignatureExamples.ParameterNameRejected | utils/old/create_function_signature_db.py:118-122 | `foo(uint256 a)` is not canonical |
| SignatureExamples.ScanFindsTypeInsideName | utils/old/create_function_signature_db.py:136-149 | the argument scan also picks a type word out of a parameter name: `uint point` scans as `uint` and `int` |
| SignatureExamples.ExtractDeclaration | utils/old/create_function_signature_db.py:58-71 | on `function NAME(ARGS)` with parenthesis-free ARGS, extraction returns NAME and ARGS, or "Bad function name" for `function` |
| SignatureExamples.NormalizeDeclaration | utils/old/create_function_signature_db.py:147-155 | the normaliser keeps the declared name and writes the scanned pairs of ARGS in canonical form, joined by commas, between parentheses |
| SignatureExamples.NormalizeTransfer | utils/old/create_function_signature_db.py:147-155 | `function transfer(address to, uint amount)` normalises to `transfer(address,uint256)` |
| SignatureExamples.NormalizeNestedArray | utils/old/create_function_signature_db.py:147-155 | `function foo(uint[3][] a)` normalises to `foo(uint256[3][])` |
| SignatureExamples.NormalizeTypeInsideName | utils/old/create_function_signature_db.py:147-155 | `function f(uint point)` normalises to `f(uint256,int256)`: the `int` inside the name becomes an argument |
| Selectors.Utf8Char | utils/old/create_function_signature_db.py:162 | UTF-8 encodes a character in one to four bytes, one exactly for ASCII |
| Selectors.Utf8CharRoundTrip | utils/old/create_function_signature_db.py:162 | decoding the bytes of a character gives its code point back |
| Selectors.AsciiUtf8 | utils/old/create_function_signature_db.py:162 | an ASCII text encodes byte for byte |
| Selectors.Hex | utils/old/create_function_signature_db.py:202 | bytes.hex() gives two lower-case hexadecimal digits per byte |
| Selectors.HexRoundTrip | utils/old/create_function_signature_db.py:202 | reading the hexadecimal text back gives the bytes |
| Selectors.HexInjective | utils/old/create_function_signature_db.py:202 | distinct byte strings have distinct hexadecimal texts |
| Selectors.SelectorHex | utils/old/create_function_signature_db.py:202 | a selector's key is eight hexadecimal digits |
| Selectors.TransferSelectorKey | utils/old/create_function_signature_db.py:202 | selector `a9 05 9c bb` is written as `a9059cbb` |
| SignatureRegistry.AddSignature | utils/old/create_function_signature_db.py:195-196 | setdefault then add: the selector's set gains the signature; a new selector starts with just it; other selectors keep their sets |
| SignatureRegistry.SetDefaultThenAdd | utils/old/create_function_signature_db.py:195-196 | the two in-place updates together are AddSignature |
| SignatureRegistry.SerializedKeys | utils/old/create_function_signature_db.py:200-202 | each written key is eight hexadecimal digits that read back to a selector of the database, with that selector's set |
| SignatureRegistry.SerializationUnique | utils/old/create_function_signature_db.py:200-202 | the serialised database is determined by the database |
| SignatureRegistry.SerializedCount | utils/old/create_function_signature_db.py:200-204 | the JSON object has as many keys as there are selectors (the printed unique count) |
| SignatureRegistry.AddFunctionSignature | utils/old/create_function_signature_db.py:187-196 | one declaration updates the registry exactly as AddDeclaration does: a `function` name is skipped, any other normalisation error is re-raised, otherwise the normalised text joins its selector's set |
| SignatureRegistry.AddFileSignatures | utils/old/create_function_signature_db.py:186-197 | the declaration loop of one file computes the fold of AddDeclaration over its declarations, including the skip and the re-raise |
| SignatureRegistry.AddFile | utils/old/create_function_signature_db.py:172-176 | only files ending in `.sol` contribute their extracted declarations |
| SignatureRegistry.CollectSignatures | utils/old/create_function_signature_db.py:179-198 | the file loop computes the fold over all files' declarations and stops at the first error |
| SignatureRegistry.SerializeRegistry | utils/old/create_function_signature_db.py:200-202 | the serialisation loop writes every selector under its hexadecimal key |
| SignatureRegistry.BuildFunctionSigDb | utils/old/create_function_signature_db.py:178-207 | the build returns the serialised database, or the error that aborted it |
| SignatureRegistry.AbortStops | utils/old/create_function_signature_db.py:193 | once an error is raised, later declarations change nothing |
| SignatureRegistry.BadNameSkipped | utils/old/create_function_signature_db.py:189-192 | a declaration named `function` is skipped: the result is as if it were absent |
| SignatureRegistry.UnmatchedAborts | utils/old/create_function_signature_db.py:64-65 | a declaration the name pattern rejects aborts the build |
| SignatureRegistry.DeclarationsMatch | utils/old/create_function_signature_db.py:186 | every declaration from the files matches the name pattern |
| SignatureRegistry.BuildNeverAborts | utils/old/create_function_signature_db.py:187-193 | so the re-raise is unreachable and the build always succeeds |
| SignatureRegistry.AddDeclarationsKeep | utils/old/create_function_signature_db.py:186-197 | the loop keeps every stored signature canonical and filed under its own selector, and only adds |
| SignatureRegistry.RegistryConsistent | utils/old/create_function_signature_db.py:178-198 | the built database files every signature under its own selector, and every signature is canonical |
| SignatureRegistry.RegistryGrows | utils/old/create_function_signature_db.py:181-197 | more files never remove a selector or a signature |
| SignatureRegistry.ReAddUnchanged | utils/old/create_function_signature_db.py:195-196 | adding a signature already present changes nothing |
| SignatureRegistry.AddDeclarationsContents | utils/old/create_function_signature_db.py:186-197 | after the loop, s is under k exactly when it was there before or a declaration normalises to s with selector k |
| SignatureRegistry.RegistryContents | utils/old/create_function_signature_db.py:178-198 | s is in the database under k exactly when some declaration of some `.sol` file normalises to s and s hashes to k |
| SignatureRegistry.AddDeclarationsNonEmpty | utils/old/create_function_signature_db.py:195-196 | the loop never leaves a selector with an empty set, since setdefault is always followed by add |
| SignatureRegistry.RegistryNonEmpty | utils/old/create_function_signature_db.py:178-198 | every selector of the built database holds at least one signature |
| SignatureRegistry.RegistryOrderIndependent | utils/old/create_function_signature_db.py:178-198 | two walks that visit the same declarations, in any order and with any repeats, build the same database |
| JsStrings.Split | utils/stats/stats.js:19 | `split` gives at least one piece, and no piece contains the separator |
| JsStrings.JoinSplit | utils/stats/stats.js:19 | joining the pieces of a split gives the text back |
| JsStrings.SplitJoin | utils/stats/stats.js:19 | splitting a join of separator-free pieces gives the pieces back |
| JsStrings.TrimFacts | utils/stats/stats.js:20 | `trim` removes exactly the leading and trailing white space and keeps the middle |
| JsStrings.TrimIdempotent | utils/stats/stats.js:20 | trimming twice is trimming once |
| JsStrings.PadStart2 | utils/stats/stats.js:103-104 | `padStart(2, "0")` left-pads a shorter text with zeros to length 2 and leaves longer texts alone |
| JsStrings.LessTotal | utils/stats/stats.js:117 | string `<` is total: two texts are equal or one is less |
| JsStrings.LessTransitive | utils/stats/stats.js:117 | string `<` is transitive |
| Counters.Counter.constructor | utils/stats/stats.js:27-29 | a new counter is empty |
| Counters.Counter.Add | utils/stats/stats.js:30-36 | add sets an absent key to 1, otherwise increments it; no other key changes; a new key goes last in key order |
| Counters.TallyAppend | utils/stats/stats.js:30-36 | the counts after one more add are the counts before with that key bumped or set to 1 |
| Counters.TallyCounts | utils/stats/stats.js:30-36 | after any sequence of adds, a key is present exactly when it was added, and its count is the number of times it was added |
| Counters.TallyTotal | utils/stats/stats.js:30-36 | the counts sum to the number of add calls |
| Counters.KeysOfTally | utils/stats/stats.js:42-44 | the for-in keys are exactly the counter's keys, each once |
| Counters.KeyOrderAppend | utils/stats/stats.js:42-44 | a key enters the enumeration order when first added and keeps its place |
| Counters.SortByCountFacts | utils/stats/stats.js:45-46 | the comparator sort is a permutation ordered by non-increasing count |
| Counters.Counter.TopX | utils/stats/stats.js:40-48 | topX returns the slice's number of pairs, each a key with its count, non-increasing, no key twice; every key left out counts no more than any listed; x ≥ the number of keys lists every key |
| Counters.TopFacts | utils/stats/stats.js:40-48 | the same facts, and no key twice, proved for any sorted permutation of pairs with distinct keys |
| DateSort.DateKeyOfDate | utils/stats/stats.js:101-107 | the key of `m/d/y` is y followed by the padded month and the padded day |
| DateSort.NoSlashNoDay | utils/stats/stats.js:101-103 | a text without `/` has no day part, so the comparator throws on it |
| DateSort.DateOrder | utils/stats/stats.js:101-117 | for years of equal length, keys compare by year, then month, then day |
| DateSort.AprilBeforeDecember | utils/stats/stats.js:100 | 4/30/2021 sorts before 12/1/2021 |
| DateSort.InOrderTransitive | utils/stats/stats.js:117 | the comparator's order is transitive |
| DateSort.InsertAt | utils/stats/stats.js:99 | one insertion step extends the sorted prefix and permutes the array |
| DateSort.InsertionSort | utils/stats/stats.js:99 | the sort leaves the array sorted by date key and a permutation of its input |
| DateSort.SortDateArray | utils/stats/stats.js:97-119 | with two or more texts and one of them without a day, the sort throws and leaves the array unchanged; otherwise the array is sorted by date key and is a permutation of the input |
| SummaryStats.LookupLast | utils/stats/stats.js:23 | a property is found exactly when the object has a member of that name; the last duplicate wins |
| SummaryStats.NatTextValue | utils/stats/stats.js:30-35 | a number's decimal text reads back as the number |
| SummaryStats.NumberTextInjective | utils/stats/stats.js:30-35 | distinct numbers give distinct property keys |
| SummaryStats.EntryKey | utils/stats/stats.js:66-72 | an entry with a truthy `err` adds no key |
| SummaryStats.ErrorEntryIgnored | utils/stats/stats.js:67 | an entry with an error changes no counter: the keys are as if it were absent |
| SummaryStats.KeylessEntryIgnored | utils/stats/stats.js:66-72 | the same for any entry that adds no key to a counter |
| SummaryStats.KeysFrom | utils/stats/stats.js:65-72 | a key is added exactly when some entry yields it |
| SummaryStats.KeysAppend | utils/stats/stats.js:65 | the keys of two runs of entries are the keys of each in turn |
| SummaryStats.NonBlank | utils/stats/stats.js:20-21 | the kept lines are trimmed and non-empty |
| SummaryStats.NonBlankKeeps | utils/stats/stats.js:20-21 | every line that is not blank after trimming is kept, trimmed |
| SummaryStats.CleanLinesOfText | utils/stats/stats.js:19-21 | lines that are already trimmed and non-empty, joined by newlines, come back unchanged |
| SummaryStats.ParseAll | utils/stats/stats.js:23 | every line parses to its value, or the error names a line that does not parse |
| SummaryStats.ParseAllFirstFailure | utils/stats/stats.js:23 | the map throws exactly when some line does not parse, and the error names the first such line, every line before it parsing |
| SummaryStats.ReadJsonLines | utils/stats/stats.js:18-24 | one value per trimmed non-blank line, each the parse of its line, or an error naming a non-blank line that does not parse (the first, by ParseAllFirstFailure) |
| SummaryStats.Stats.constructor | utils/stats/stats.js:52-60 | a new Stats has the name, no files and three empty, distinct counters |
| SummaryStats.Stats.ProcessFiles | utils/stats/stats.js:61-63 | the file count is the number of files |
| SummaryStats.Stats.ProcessEntry | utils/stats/stats.js:66-72 | each counter gains exactly the key the entry yields for it, if any |
| SummaryStats.Stats.TallyCompiler | utils/stats/stats.js:68-69 | the compiler counter gains the entry's compiler key, if any |
| SummaryStats.Stats.TallyName | utils/stats/stats.js:70 | the names counter gains the entry's name, if any |
| SummaryStats.Stats.TallyDate | utils/stats/stats.js:71-72 | the dates counter gains the entry's date key, if any |
| SummaryStats.Stats.ProcessEntries | utils/stats/stats.js:65-73 | the counters gain the keys of the entries in order; a null entry throws, leaving the keys of the entries before it |
| SummaryStats.Stats.ProcessNext | utils/stats/stats.js:65-72 | counting one non-null entry extends each counter's history by exactly that entry's key, if it has one, and keeps the counters valid |
| SummaryStats.Stats.ProcessSummaryFile | utils/stats/stats.js:64-74 | a line that is not JSON changes no counter; otherwise the file's entries are counted as in ProcessEntries |

## Left out

- Reading files, walking directories, opening and writing the output file, `print` and `console` output: these are I/O. Each program gets its file texts (a sequence of path and text pairs for the database, the summary text for the statistics) as parameters.
- Keccak-256 is a parameter `keccak: seq<byte> -> Digest`. The hash function itself is not part of this model.
- The `new_sigs` counter of `build_function_sig_db`: it is used only in a printed message.
- The order of each selector's signature list: Python's `list(v)` of a set depends on the hash seed, so the serialised values are modelled as sets.
- `main()` of both programs: it only supplies fixed paths.
- `JSON.parse` is a parameter that returns the parsed value, or nothing on a syntax error.
- JSON numbers are integers. Fractions, exponents, and the way JavaScript prints large or non-integer numbers as property keys are not modelled.
- `dateFormat` and `new Date(...)`: the formatting of `date_created` depends on the local time zone and the JavaScript Date object. It is a parameter `formatDate`.
- SolidityLexer.SubTypeEnd: its own contract states only what a consumed suffix is. That a complete suffix is consumed is SubTypeEndFinds.
- FunctionSignature.MatchArgument: its own contract states only that a match is non-empty and parenthesis-free. The exact reading, both ways, is MatchArgumentIsArgument.
- FunctionSignature.MatchArgumentList: its own contract states only where a match ends. The exact reading, both ways, is MatchArgumentListIsList.
- FunctionSignature.MatchRawFunction: its own contract states only what a match guarantees. That every header is found is MatchRawFunctionIsHeader.
- FunctionSignature.FindHeaders: its own contract states only that the reports are headers, in order and without overlap. That no match is missed is FindHeadersIsFindall.
- SignatureNormalizer.ScanArgumentTypes: the result is stated exactly on canonical lists and on declared lists whose names hold no type word. When a type word starts inside a parameter name, the scan reports it as a further argument, as findall does; only the example `uint point` states this.
- Counters.Counter.Add: keys named after `Object.prototype` members (such as `constructor`, `toString` or `__proto__`) are not modelled. On a plain object these are truthy or special before any add.
- Counters.Counter.TopX: for-in visits integer-like keys in numeric order before the other keys. The model keeps insertion order only, so TopX's contract states no order among pairs with equal counts.
- JsStrings.PadStart2, JsStrings.Less and DateSort.DateKey: JavaScript counts and compares strings in UTF-16 code units, and the model counts and compares code points. The two agree on texts without characters above U+FFFF. With such a character, `padStart` sees two units where the model sees one character, so the model pads where JavaScript does not. `<` also compares its surrogate units, which can order such texts differently from their code points.
- DateSort.SortDateArray: the engine's sort is modelled as an insertion sort. The contract states the result that any sort with this comparator gives: the texts sorted by key, as a permutation. It does not state the order of texts with equal keys. On a throwing comparator, an engine may leave the array partly reordered; the model states that it is unchanged.
- `getAllDirFiles`, `createReport`, `toJSON` and the remaining report code of `utils/stats/stats.js`: these are directory walking and report output, not part of the statistics core.
