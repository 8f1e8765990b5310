# Vijie parsing core, modelled in Dafny

Vijie (`com.vijie.core`) is a parser-combinator library. Its input is tokenized into a `Sequence`: a list of tokens with a pointer. Each character becomes an `Atom` symbol, and the list ends with a zero-width `EOF` symbol. A grammar is a tree of `IParser` objects:
- the leaf parsers `Char` and `Epsilon`;
- the wrappers `Optional`, `Any` and `Savior`;
- factories that build composite tokens: `Chain`, `Array`, `Union`, `OptionsChain`, `Literal`, `DefinedChar`, `Cast` and `Trim`.

`Sequence.parse` works in three steps:
1. It hands a copy of the remainder to the parser.
2. The parser builds a token whose own `parse` consumes that copy.
3. `fusion` replaces the consumed tokens by the new composite token.

Failures are exceptions:
- parse errors (`ParserError` chains with depths, `OptionalNotFound`, and the multi-errors `UnionError`, `EmptyChainError` and `AnyParserError`);
- interrupters (`GenericInterrupter`), which are not parse errors and pass through the combinators;
- the `Interruption` and `FailedTokenInterruption` runtime exceptions used by the `Savior` recovery.

`Savior` recovers by resynchronising on a parser. It builds `UnknownToken`, `UnexpectedToken`, `MissingToken` or `FailedToken` dummies, whose errors the tree later reports.

The model is written in value semantics. Each module follows one part of the program:

| module | models |
|---|---|
| `Kinds` | the token class hierarchy (`Cls`) and `matches`/`isAssignableFrom` as a walk up single inheritance |
| `Nodes` | tokens: symbols (`Atom`, `EOF`, `Break`, `Epsilon`) and composites; `getLength`, `getRaw`, `getIndex`, `getType`, `getValue`, `equals`, `getErrors` |
| `Sequences` | `Sequence`: `tokenize`, the pointer, `getCurrent`, `isEof`, `getRemainder`, `clear*`, `slice`, `fusion`, `append`, `getAt`, `getSymbol` |
| `Tree` | `getParent`, `getDepth`, `findParent` and `getRoot`. A parent is a position in the tree rather than a stored link, with `Union` transparency |
| `Grammar` | parsers as data (`Rule`, `Body`), `getType`/`getTypes`, the library's parser constructors, and `Utils.prependParam`/`merge*` |
| `Errors` | the parse-error classes, `ParserError` depth renumbering, `getSource`, `getOrigin`, `isEof`, `isSource`, and `MultiParseError` |
| `Engine` | one fuel-bounded group of mutually recursive functions for `Sequence.tryParse`/`parse`/`parseAndStep`/`find`, every composite `parse`, `Optional`, `Any`, `Char`, `Savior` and the dummies |
| `EngineFacts`, `CombinatorFacts`, `RecoveryFacts` | what the engine guarantees, per combinator |
| `Streams` | `TokenStream` (`curate`, `filter`, `flatMap`, `getValues`) and the `Utils` predicates `filterTrims`, `filterChars` and `filterTokens` |

Some engine properties hold only when a rule tree contains no `Savior`, because recovery rewrites the sequence. Examples are a union's single child and an array's extent. Those lemmas take a `Plain` (recovery-free) hypothesis. The lemmas `RunPlain` through `FactoryPlain` prove that such trees never raise a recovery exception.

## Model

| member | source | states |
|---|---|---|
| Kinds.IsAHeight | src/main/java/com/vijie/core/Token.java:78-80 | a class is assignable only to classes at or above it in the hierarchy, and equal height means the same class |
| Kinds.IsATransitive | src/main/java/com/vijie/core/Token.java:78-80 | `matches` is transitive: a token of a subclass of a subclass matches the outer class |
| Kinds.IsALinear | src/main/java/com/vijie/core/Token.java:78-80 | with single inheritance, two classes one token matches are themselves related by subclassing |
| Kinds.IsAAntisymmetric | src/main/java/com/vijie/core/Token.java:78-80 | two classes assignable to each other are the same class |
| Kinds.BreakIsEof | src/main/java/com/vijie/core/symbols/Break.java:5 | a `Break` is an `EOF` symbol (so `isEof` treats it as end of input), while `Atom`, `Epsilon` and `EOF` itself are not `Break`s |
| Nodes.TypeOf | src/main/java/com/vijie/core/tokens/Trim.java:103-106 | `getType` is the concrete class for every token except a `Trim` |
| Nodes.SumLenAppend | src/main/java/com/vijie/core/CompositeToken.java:92-95 | the summed length of children is additive over concatenation |
| Nodes.RawOfAppend | src/main/java/com/vijie/core/CompositeToken.java:76-79 | the joined raw text of children is additive over concatenation |
| Nodes.RawLength | src/main/java/com/vijie/core/CompositeToken.java:76-95 | every token's raw text has exactly as many characters as its `getLength` |
| Nodes.RawOfLength | src/main/java/com/vijie/core/CompositeToken.java:76-95 | the raw text of a list of tokens is as long as their summed lengths |
| Nodes.CompositeLengthAdditive | src/main/java/com/vijie/core/CompositeToken.java:76-95 | splitting a composite's children splits both its length and its raw text |
| Nodes.CompositeIndexIsFirstChild | src/main/java/com/vijie/core/CompositeToken.java:84-87 | a composite's `getIndex` is its first child's, and is defined exactly when the first-child spine ends in a symbol, whose offset it then is |
| Nodes.FirstLeaf | src/main/java/com/vijie/core/CompositeToken.java:84-87 | the first-child descent, when it ends, ends at a symbol |
| Nodes.FirstLeafIndex | src/main/java/com/vijie/core/symbols/Symbol.java:31-34 | `getIndex` of any token is defined exactly when the first-child descent reaches a symbol, and equals that symbol's offset |
| Nodes.TrimValueIsTokenValue | src/main/java/com/vijie/core/tokens/Trim.java:111-124 | a `Trim`'s value is the value of the token after its left padding, or of its first child without padding |
| Nodes.TrimMatchesItsToken | src/main/java/com/vijie/core/tokens/Trim.java:103-116 | a `Trim` reports the type of the token after its left padding, or of its first child without padding, and so matches what that token matches |
| Nodes.JoinOfAtoms | src/main/java/com/vijie/core/tokens/CharArray.java:61-66 | joining the values of atoms gives exactly their raw text |
| Nodes.EqualsProperties | src/main/java/com/vijie/core/Token.java:51-72 | `equals(IToken)` is symmetric, compares raw texts (as `equals(String)` does) when the classes differ, and equates two atoms exactly when their characters agree |
| Nodes.DefinedCharEquality | src/main/java/com/vijie/core/Token.java:51-55 | two `DefinedChar` tokens with the same character are equal whatever their offsets, and differ for different characters |
| Nodes.ErrorsComeFromDummies | src/main/java/com/vijie/core/CompositeToken.java:130-142 | `getErrors` reports only errors of dummy tokens, and nothing for a tree without dummies |
| Nodes.ErrorsOfComeFromDummies | src/main/java/com/vijie/core/CompositeToken.java:130-142 | the same for a list of children |
| Nodes.ErrorsOfAppend | src/main/java/com/vijie/core/CompositeToken.java:135-140 | errors are collected in child order: splitting the children splits the error list |
| Sequences.Tokenize | src/main/java/com/vijie/core/Sequence.java:32-38 | one `Atom` per character at its own offset, then one `EOF` at the input length |
| Sequences.CurrentHeadsRemainder | src/main/java/com/vijie/core/Sequence.java:148-174 | `getCurrent` succeeds exactly when the remainder from the pointer is non-empty, and it is the remainder's first token |
| Sequences.Remainder | src/main/java/com/vijie/core/Sequence.java:148-150 | the remainder exists exactly when the pointer is in `[0, size]`, and the prefix before the pointer plus the remainder is the whole content |
| Sequences.Clamp | src/main/java/com/vijie/core/Sequence.java:396-400 | `Math.clamp` lands in the range, leaves in-range values alone, and sends a value below or above the range to that bound |
| Sequences.CopyRemainder | src/main/java/com/vijie/core/Sequence.java:312-317 | a done sequence throws `EOFException`; otherwise the copy holds the tokens from the pointer on, with pointer 0 |
| Sequences.Slice | src/main/java/com/vijie/core/Sequence.java:396-400 | slicing keeps the pointer; with `0 <= start <= end <= size` it keeps exactly `[start, end)`, an end before the start keeps nothing, a range around the list keeps all, and in general it keeps a run starting at the clamped start |
| Sequences.SliceSplit | src/main/java/com/vijie/core/Sequence.java:396-400 | the slice before any cut point followed by the slice after it is the whole content |
| Sequences.Fusion | src/main/java/com/vijie/core/Sequence.java:407-411 | fusion succeeds exactly when the pointer is in `[0, size]`, and keeps the pointer |
| Sequences.Append | src/main/java/com/vijie/core/Sequence.java:424-427 | only zero-length tokens may be appended |
| Sequences.GetAt | src/main/java/com/vijie/core/Sequence.java:268-275 | the result is the first token covering the offset; `IndexOutOfRange` exactly when no token covers it; an undefined child index is the only other failure |
| Sequences.GetSymbol | src/main/java/com/vijie/core/Sequence.java:248-259 | a found symbol covers the offset, after descending through composites |
| Sequences.AtomsSpell | src/main/java/com/vijie/core/Sequence.java:32-38 | atoms spelling a string have that string as raw text and its length |
| Sequences.TokenizeRoundTrip | src/main/java/com/vijie/core/Sequence.java:32-48 | `fromString(s)` has raw text `s`, total length `s.length()`, and end index `s.length()` |
| Sequences.TokenizeExample | src/main/java/com/vijie/core/Sequence.java:130-208 | for `"ABCDEF"`: size 7, length 6, current index 0, end index 6 |
| Sequences.GetAtTokenized | src/main/java/com/vijie/core/Sequence.java:268-275 | on tokenized input `getAt(i)` is the atom of character `i` inside the text and `IndexOutOfRange` outside (the `EOF` covers nothing) |
| Sequences.IsEofTokenized | src/main/java/com/vijie/core/Sequence.java:340-355 | on tokenized input `isEof` holds exactly outside the characters, and `isDone` implies `isEof` |
| Sequences.ConsumedRemainderPartition | src/main/java/com/vijie/core/Sequence.java:148-160 | consumed tokens (through the current one) and the remainder after it partition the content, and `clearRemainder` keeps the consumed part and steps past it |
| Sequences.ClearKeepsPrefix | src/main/java/com/vijie/core/Sequence.java:368-400 | `clearFrom(k)` keeps exactly the clamped prefix up to pointer plus `k` and does not move the pointer |
| Sequences.ClearExample | src/main/java/com/vijie/core/Sequence.java:360-390 | concrete sizes after `clearRemainder`, `clearFrom` and `clearAt` on `"ABCDEF"` |
| Sequences.CopyRemainderExact | src/main/java/com/vijie/core/Sequence.java:312-317 | `copyRemainder` fails exactly when the sequence is done, and otherwise the consumed prefix plus the copy is the content |
| Sequences.FusionKeepsText | src/main/java/com/vijie/core/Sequence.java:407-411 | fusion keeps the prefix, places the token at the pointer, keeps the tail after its length, and preserves the raw text and length when the token spells what it replaces |
| Sequences.FusionKeepsRaw | src/main/java/com/vijie/core/Sequence.java:407-411 | replacing a run by a token with the same raw text keeps the whole text and length |
| Sequences.FusionKeepsLength | src/main/java/com/vijie/core/Sequence.java:407-411 | the same for the total length |
| Sequences.AppendKeepsText | src/main/java/com/vijie/core/Sequence.java:424-427 | appending a zero-length token keeps the prefix, the raw text and the length |
| Sequences.GetAtStep | src/main/java/com/vijie/core/Sequence.java:270-272 | the search returns the first child when it covers the offset and otherwise goes on with the rest |
| Sequences.ContiguousOffset | src/main/java/com/vijie/core/Sequence.java:407-411 | in a run of adjacent tokens each one starts at the first one's offset plus the lengths before it, and ends within the run |
| Sequences.CompositeCovers | src/main/java/com/vijie/core/Sequence.java:248-259 | a composite over adjacent tokens covers an offset exactly when one of its children does |
| Sequences.GetSymbolComplete | src/main/java/com/vijie/core/Sequence.java:248-259 | when `getAt` finds a token and every composite has adjacent children, `getSymbol` finds a symbol |
| Sequences.GetAtPrefix | src/main/java/com/vijie/core/Sequence.java:268-275 | a token found in a prefix is found whatever follows |
| Sequences.GetAtPassOver | src/main/java/com/vijie/core/Sequence.java:268-275 | a first token that has an offset and does not cover it is passed over, with or without a tail |
| Sequences.GetAtSkips | src/main/java/com/vijie/core/Sequence.java:268-275 | tokens that have an offset and do not cover it are passed over |
| Sequences.GetSymbolFusionInvariant | src/main/java/com/vijie/core/Sequence.java:248-259 | fusing a composite over a run of adjacent tokens does not change what `getSymbol` finds at any offset |
| Sequences.FusionKeepsSymbols | src/main/java/com/vijie/core/Sequence.java:407-411 | `fusion` of a composite over the adjacent tokens it spans from the cursor (their width equal to their count, as for character symbols) succeeds and leaves `getSymbol` unchanged at every offset |
| Sequences.GetSymbolThroughComposites | src/main/java/com/vijie/core/Sequence.java:248-259 | `getSymbol` descends through nested composites to the atom at an offset |
| Tree.PrefixValid | src/main/java/com/vijie/core/NodeToken.java:36-39 | every prefix of a tree position is a position, and every proper prefix is a composite |
| Tree.AtPrefixChild | src/main/java/com/vijie/core/NodeToken.java:36-39 | a token is a child of the token at its position's prefix |
| Tree.Holder | src/main/java/com/vijie/core/tokens/Union.java:71-89 | the holder is an ancestor that is not a `Union` (a union passes its parent down) |
| Tree.Parent | src/main/java/com/vijie/core/NodeToken.java:36-39 | a parent, when there is one, is a composite strictly above the token |
| Tree.FindParent | src/main/java/com/vijie/core/NodeToken.java:52-57 | a found parent is a strict ancestor that is an instance of the class |
| Tree.Ancestry | src/main/java/com/vijie/core/NodeToken.java:52-57 | the parent chain consists of strict ancestors |
| Tree.FindParentNone | src/main/java/com/vijie/core/symbols/Symbol.java:88-93 | `findParent` returns null only when no token on the parent chain is an instance of the class |
| Tree.FindParentPosition | src/main/java/com/vijie/core/symbols/Symbol.java:88-93 | a found parent sits on the chain, matches the class, and no nearer parent does |
| Tree.FindParentIsFirstOnChain | src/main/java/com/vijie/core/NodeToken.java:52-57 | `findParent` is null exactly when nothing on the chain matches, and otherwise it is the nearest matching token on the chain |
| Tree.GetRootIsFindParent | src/main/java/com/vijie/core/NodeToken.java:52-57 | `getRoot` is `findParent(IRootToken)` |
| Tree.DepthIsPathLength | src/main/java/com/vijie/core/NodeToken.java:44-47 | below a root, without unions or nested roots, `getDepth` of a composite, or of a symbol inside a fused token, is the distance from the root |
| Tree.UnionChildReportsGrandparent | src/main/java/com/vijie/core/tokens/Union.java:71-89 | a token parsed inside a `Union` reports the union's parent as its own |
| Tree.DepthExample | src/main/java/com/vijie/core/symbols/Symbol.java:63-67 | depths in a small tree under a root: the root is 0, a fused token 1, a symbol inside it 2, and a symbol of the root's own sequence that no parse stepped over 0, since it never got a parent link |
| Tree.Indent | src/main/java/com/vijie/core/Token.java:95-99 | the tree rendering indent is `depth` tab characters |
| Grammar.Types | src/main/java/com/vijie/core/parsers/GenericFactory.java:64-66 | `getTypes` lists each parser's result class, in order |
| Grammar.PrependParamRoundTrip | src/main/java/com/vijie/core/Utils.java:25-31 | every argument list of two or more splits back into parent, sequence and the rest, and `prependParam` is one-to-one |
| Grammar.MergeMembers | src/main/java/com/vijie/core/Utils.java:68-102 | `mergeParsers`/`mergeStrings` hold the first, the second and the others, each as often as given, and nothing else |
| Grammar.MergeLiterals | src/main/java/com/vijie/core/Utils.java:81-87 | one `StringLiteral` parser per string, in order |
| Grammar.MergeLiteralsTypes | src/main/java/com/vijie/core/Utils.java:81-87 | the merged literal parsers all report `StringLiteral`, and each parses an array of exactly its literal's length |
| Grammar.WrappersKeepType | src/main/java/com/vijie/core/parsers/Optional.java:52 | `Optional` and `Savior` report their target's type however deeply nested |
| Errors.SetDepth | src/main/java/com/vijie/core/errors/ParserError.java:60-64 | `setDepth` sets the error's depth and keeps its class |
| Errors.MkParserError | src/main/java/com/vijie/core/errors/ParserError.java:21-24 | a new `ParserError` has depth 1 and records its parser |
| Errors.MkOptionalNotFound | src/main/java/com/vijie/core/parsers/Optional.java:61-67 | `Optional` rethrows as an `OptionalNotFound` of depth 1 naming itself |
| Errors.SetDepths | src/main/java/com/vijie/core/errors/MultiParseError.java:32-37 | every collected error gets the same depth |
| Errors.Source | src/main/java/com/vijie/core/errors/ParserError.java:46-49 | `getSource` is never itself a `ParserError` |
| Errors.SetDepthOnlyChangesDepths | src/main/java/com/vijie/core/errors/ParserError.java:60-64 | renumbering changes nothing but depths |
| Errors.SetDepthNumbersTheChain | src/main/java/com/vijie/core/errors/ParserError.java:60-64 | after `setDepth(d)`, the `k`-th cause has depth `d + k` |
| Errors.SourceIsOrigin | src/main/java/com/vijie/core/errors/ParserError.java:80-89 | `getOrigin` and `getSource` agree, and `isEof` holds exactly when the source is an `EOFParseError` |
| Errors.SetDepthKeepsSource | src/main/java/com/vijie/core/errors/ParserError.java:46-89 | renumbering keeps the source and `isEof` |
| Errors.WrappedCause | src/main/java/com/vijie/core/errors/ParserError.java:21-24 | wrapping a cause renumbers its chain from 2, keeps it otherwise, and keeps its source and `isEof` |
| Errors.MultiKeepsErrors | src/main/java/com/vijie/core/errors/MultiParseError.java:32-55 | a multi-error keeps its types and its errors, in order, each renumbered to depth 1 |
| Errors.IsSourceAsWrittenIsReversed | src/main/java/com/vijie/core/errors/ParserError.java:51-53 | as written, no `ParserError` has a source of type `GenericParseError` (an `EOFParseError` source included), while the corrected test says every one has |
| Errors.IsSourceAcceptsSuperclasses | src/main/java/com/vijie/core/errors/ParserError.java:51-53 | the corrected `isSource` accepts the source's own class and every superclass, and never `ParserError` |
| Streams.KeepIf | src/main/java/com/vijie/core/TokenStream.java:49-57 | a filtered stream keeps exactly the tokens that pass, never more than it had |
| Streams.KeepIfAppend | src/main/java/com/vijie/core/TokenStream.java:49-57 | filtering distributes over concatenation (order is kept) |
| Streams.KeepIfAllPass | src/main/java/com/vijie/core/TokenStream.java:49-57 | when all tokens pass, filtering is the identity |
| Streams.KeepIfIdempotent | src/main/java/com/vijie/core/TokenStream.java:49-57 | filtering twice is filtering once |
| Streams.Curate | src/main/java/com/vijie/core/TokenStream.java:38-46 | `curate` keeps exactly the tokens that are not `IGenericFailedToken`s |
| Streams.CurateKeepsAll | src/main/java/com/vijie/core/TokenStream.java:38-46 | no token class of the model is an `IGenericFailedToken`, so `curate` keeps every token, recovered dummies included |
| Streams.CurateIdempotent | src/main/java/com/vijie/core/TokenStream.java:38-46 | curating twice is curating once |
| Streams.Filter | src/main/java/com/vijie/core/TokenStream.java:49-57 | `filter(type)` keeps exactly the tokens matching the type |
| Streams.FilterAny | src/main/java/com/vijie/core/TokenStream.java:59-67 | `filter(type, types...)` keeps exactly the tokens matching one of the types |
| Streams.FilterAnySingle | src/main/java/com/vijie/core/TokenStream.java:49-67 | the varargs filter with one type is the single-type filter |
| Streams.KeepIfSamePredicate | src/main/java/com/vijie/core/TokenStream.java:49-57 | filtering depends only on the predicate's answers |
| Streams.FilterWidens | src/main/java/com/vijie/core/TokenStream.java:49-57 | filtering on a superclass keeps everything filtering on a subclass keeps |
| Streams.FlatMapAppend | src/main/java/com/vijie/core/TokenStream.java:69-75 | `flatMap` distributes over concatenation |
| Streams.FlatMapSingletons | src/main/java/com/vijie/core/TokenStream.java:69-75 | mapping every token to a singleton list gives the tokens back |
| Streams.CollectValues | src/main/java/com/vijie/core/TokenStream.java:77-83 | collecting succeeds exactly when every token has a value, with at most one value per token |
| Streams.GetValues | src/main/java/com/vijie/core/TokenStream.java:77-83 | `getValues` succeeds exactly when every token's value is computable, and holds at most one value per token |
| Streams.CollectDropsNulls | src/main/java/com/vijie/core/TokenStream.java:80 | collected values never include null |
| Streams.CollectAppend | src/main/java/com/vijie/core/TokenStream.java:77-83 | collecting distributes over concatenation (order is kept) |
| Streams.Nonnull | src/main/java/com/vijie/core/TokenStream.java:80 | a token's value joins the list exactly when it is not null, and at most once |
| Streams.GetValuesDropsNulls | src/main/java/com/vijie/core/TokenStream.java:80 | `getValues` holds no null value |
| Streams.GetValuesAppend | src/main/java/com/vijie/core/TokenStream.java:77-83 | the values of a concatenation are the concatenated values |
| Streams.GetValuesSingle | src/main/java/com/vijie/core/TokenStream.java:80 | a single token contributes its value exactly when that value is not null |
| Streams.ContainsChar | src/main/java/com/vijie/core/Utils.java:146-149 | a one-character string occurs in the blacklist exactly when its character does |
| Streams.FilterChars | src/main/java/com/vijie/core/Utils.java:146-149 | `filterChars` passes every token that is not a `DefinedChar`, and rejects only `DefinedChar`s |
| Streams.FilterCharsOnDefinedChar | src/main/java/com/vijie/core/Utils.java:146-149 | a `DefinedChar` passes exactly when its character is not blacklisted |
| Streams.FilterTokensIsFilter | src/main/java/com/vijie/core/Utils.java:180-183 | filtering with `filterTokens(types)` is the varargs type filter |
| Streams.ValuesSkipPadding | src/main/java/com/vijie/core/tokens/Chain.java:66-72 | the values of a composite are those of its children without the `Trimmed` padding |
| EngineFacts.RunPlain | src/main/java/com/vijie/core/parsers/Savior.java:58-78 | a parser tree without `Savior` never raises a recovery exception (`Interruption`, `FailedTokenInterruption`) |
| EngineFacts.TryParsePlain | src/main/java/com/vijie/core/Sequence.java:460-473 | the same for `tryParse` |
| EngineFacts.SeqParsePlain | src/main/java/com/vijie/core/Sequence.java:485-503 | the same for `parse` |
| EngineFacts.ParseAndStepPlain | src/main/java/com/vijie/core/Sequence.java:513-516 | the same for `parseAndStep` |
| EngineFacts.ChainLoopPlain | src/main/java/com/vijie/core/tokens/Chain.java:78-90 | the same for the chain loop |
| EngineFacts.ArrayLoopPlain | src/main/java/com/vijie/core/tokens/Array.java:110-136 | the same for the array loop |
| EngineFacts.UnionLoopPlain | src/main/java/com/vijie/core/tokens/Union.java:71-89 | the same for the union loop |
| EngineFacts.OptionsLoopPlain | src/main/java/com/vijie/core/tokens/OptionsChain.java:82-105 | the same for the options-chain loop |
| EngineFacts.AnyLoopPlain | src/main/java/com/vijie/core/parsers/Any.java:77-93 | the same for `Any` |
| EngineFacts.ArrayBodyPlain | src/main/java/com/vijie/core/tokens/Array.java:110-125 | the same for `Array.parse` |
| EngineFacts.OptionalPlain | src/main/java/com/vijie/core/parsers/Optional.java:61-67 | the same for `Optional` |
| EngineFacts.RunBodyPlain | src/main/java/com/vijie/core/parsers/GenericFactory.java:29-43 | the same for every composite `parse` |
| EngineFacts.FactoryPlain | src/main/java/com/vijie/core/parsers/GenericFactory.java:29-43 | the same for a factory |
| EngineFacts.CharStep | src/main/java/com/vijie/core/parsers/Char.java:31-43 | `parseAndStep(Char)` succeeds exactly on a current character symbol, returns it, and steps once; on failure nothing moves |
| EngineFacts.TryParseWraps | src/main/java/com/vijie/core/Sequence.java:460-473 | a parse error out of `tryParse` is an `OptionalNotFound` or a depth-1 `ParserError` naming the parser, with the end-of-input error as cause when the input was at its end |
| EngineFacts.TryParseIsLocal | src/main/java/com/vijie/core/Sequence.java:460-473 | `tryParse` sees only the remainder: two sequences with the same remainder give the same outcome |
| EngineFacts.SeqParseKeepsPrefix | src/main/java/com/vijie/core/Sequence.java:485-503 | `parse` never moves the pointer back nor changes the tokens before it, also when it throws |
| EngineFacts.RetryKeepsPrefix | src/main/java/com/vijie/core/Sequence.java:529-539 | the retry after an unexpected token keeps the prefix |
| EngineFacts.PlainSeqParse | src/main/java/com/vijie/core/Sequence.java:485-503 | without recovery, success fuses the `tryParse` token at the pointer, and a failure other than an interrupter leaves the sequence unchanged and rethrows the `tryParse` error |
| EngineFacts.PlainParseAndStep | src/main/java/com/vijie/core/Sequence.java:513-516 | without recovery, success places the token at the pointer and steps over it, keeping the prefix |
| EngineFacts.GlyphsRaw | src/main/java/com/vijie/core/tokens/CharArray.java:61-66 | the raw text of character symbols is their characters |
| EngineFacts.GlyphIsNotEof | src/main/java/com/vijie/core/Sequence.java:340-346 | a current character symbol is not end of input |
| EngineFacts.ArrayLoopStep | src/main/java/com/vijie/core/tokens/Array.java:112-119 | one round of the repetition either ends where the item left the cursor or continues from there |
| EngineFacts.CharAdvances | src/main/java/com/vijie/core/parsers/Char.java:31-43 | `Char` on a character symbol parses and moves the cursor one step, leaving the tokens alone |
| EngineFacts.CharRound | src/main/java/com/vijie/core/tokens/Array.java:112-115 | a `Char` round before `max` on a character symbol steps over it and the repetition goes on |
| EngineFacts.ArrayLoopGoesOn | src/main/java/com/vijie/core/tokens/Array.java:112-115 | after an item that parses, the repetition goes on from where the item left the cursor |
| EngineFacts.CharSpan | src/main/java/com/vijie/core/tokens/Array.java:112-115 | one `Char` round, before `max` and the end, moves over at most one character symbol and changes no token |
| EngineFacts.GlyphSpanJoin | src/main/java/com/vijie/core/tokens/Array.java:112-119 | consecutive rounds over character symbols compose into one stretch of character symbols |
| EngineFacts.ArrayOfCharsSound | src/main/java/com/vijie/core/tokens/Array.java:110-136 | an array of `Char` only steps over character symbols, never past the end or `max`, and changes no token |
| EngineFacts.ArrayLoopRaises | src/main/java/com/vijie/core/tokens/Array.java:112-119 | the array loop swallows every parse error; only interrupters escape |
| EngineFacts.ArrayOfCharsComplete | src/main/java/com/vijie/core/tokens/Array.java:110-136 | over a run of character symbols an array of `Char` stops exactly at `max` |
| EngineFacts.LiteralSound | src/main/java/com/vijie/core/tokens/Literal.java:57-67 | a parsed literal is non-empty, spells the literal, and holds exactly its characters |
| EngineFacts.LiteralComplete | src/main/java/com/vijie/core/tokens/Literal.java:57-67 | when the input starts with the literal, the literal parses to exactly those characters |
| EngineFacts.TokenizedSpells | src/main/java/com/vijie/core/Sequence.java:32-38 | the symbols the input is split into, before its `EOF`, are its characters in order |
| EngineFacts.JoinThenEof | src/main/java/com/vijie/core/tokens/CharArray.java:61-66 | the join of character symbols followed by an `EOF` is their characters followed by "null" |
| EngineFacts.JoinOfTokenized | src/main/java/com/vijie/core/tokens/CharArray.java:61-66 | the join of a whole tokenized input, `EOF` included, is the input followed by "null" |
| EngineFacts.ArrayAtEndOfInput | src/main/java/com/vijie/core/tokens/Array.java:121 | as written, the array under a `StringLiteral` of any non-empty `lit` on the input `lit` keeps the `EOF`, so the literal check fails with `lit` followed by "null" ("foonull" for "foo") |
| EngineFacts.LiteralAcceptsShorterInput | src/main/java/com/vijie/core/tokens/Literal.java:57-67 | as written, a literal `lit` followed by "null" accepts the shorter input `lit`: its array keeps the `EOF`, the `UndersizedArrayError` is swallowed, and the join matches (`Literal("null")` accepts the empty input) |
| EngineFacts.LiteralRejectsShorterInput | src/main/java/com/vijie/core/tokens/Literal.java:57-67 | with the corrected array, that literal fails on that input |
| EngineFacts.LiteralAtEndOfInput | src/main/java/com/vijie/core/tokens/Literal.java:57-67 | with the corrected array, a `StringLiteral` of any non-empty `lit` parses the input `lit` to exactly its characters |
| EngineFacts.FirstNonRejecting | src/main/java/com/vijie/core/tokens/Union.java:71-89 | the index of the first alternative that does not fail with a `ParserError` |
| EngineFacts.Rejections | src/main/java/com/vijie/core/tokens/Union.java:71-89 | when every alternative fails with a `ParserError`, these are their errors, each naming its alternative |
| EngineFacts.TryParseWrapsAll | src/main/java/com/vijie/core/Sequence.java:460-473 | each rejection names the alternative that produced it |
| EngineFacts.UnionStep | src/main/java/com/vijie/core/tokens/Union.java:71-89 | one alternative: a `ParserError` is collected, success fuses and clears the rest, an `OptionalNotFound` clears the rest, and anything else escapes |
| EngineFacts.UnionAllReject | src/main/java/com/vijie/core/tokens/Union.java:86-88 | when all alternatives reject, `UnionError` carries the types and all their errors, and the sequence is untouched |
| EngineFacts.UnionRejectsAll | src/main/java/com/vijie/core/tokens/Union.java:71-89 | rejections are collected in order |
| EngineFacts.UnionRejectStep | src/main/java/com/vijie/core/tokens/Union.java:71-89 | one collected rejection extends the error list |
| EngineFacts.RejectionsTail | src/main/java/com/vijie/core/tokens/Union.java:71-89 | rejections of the rest follow the first |
| EngineFacts.UnionSettles | src/main/java/com/vijie/core/tokens/Union.java:71-89 | the union settles on the first non-rejecting alternative: its token, or nothing for an `OptionalNotFound`, then the rest is cleared |
| EngineFacts.UnionHasOneChild | src/main/java/com/vijie/core/tokens/Union.java:71-89 | a parsed union has one child: the first accepting alternative's token (or the current token after an `OptionalNotFound`) |
| EngineFacts.PlainStepBounded | src/main/java/com/vijie/core/Sequence.java:513-516 | `parseAndStep` advances at most one and keeps the prefix |
| EngineFacts.ArrayLoopBounded | src/main/java/com/vijie/core/tokens/Array.java:132-136 | the array loop never passes the end or `max` |
| EngineFacts.ArrayLoopRound | src/main/java/com/vijie/core/tokens/Array.java:110-125 | one round of the array loop: a token or an `OptionalNotFound` continues, another parse error ends the loop, any other fault is raised |
| EngineFacts.ArrayExtent | src/main/java/com/vijie/core/tokens/Array.java:110-125 | a parsed array has at least `min` and, when bounded, at most `max` children |
| EngineFacts.ChainLoopBounded | src/main/java/com/vijie/core/tokens/Chain.java:78-90 | each chain target advances at most one token |
| EngineFacts.TryParseOnRemainder | src/main/java/com/vijie/core/Sequence.java:460-473 | `tryParse` depends only on the remainder from the cursor on: it is the same on the copy of the remainder at pointer 0 |
| EngineFacts.PlainStepOnRemainder | src/main/java/com/vijie/core/Sequence.java:485-516 | without recovery, `parseAndStep` succeeds exactly when `tryParse` on the remainder does, with that token fused at the cursor and the rest of the remainder after it; a parse error leaves the sequence unchanged |
| EngineFacts.ChainLoopCollects | src/main/java/com/vijie/core/tokens/Chain.java:78-90 | a chain loop finishes exactly when the reference `CollectAt` collects from the remainder, and has then fused from the cursor exactly those tokens: per target, in target order, the token it parses where the previous one ended, or none when missed there as an optional; the prefix is kept |
| EngineFacts.ChainExtent | src/main/java/com/vijie/core/tokens/Chain.java:78-90 | a parsed chain has at most one child per target |
| EngineFacts.SeqParseWraps | src/main/java/com/vijie/core/Sequence.java:485-503 | a parse error out of `parse` is an `OptionalNotFound` or a depth-1 `ParserError` naming the parser |
| EngineFacts.ChainFailsOnATarget | src/main/java/com/vijie/core/tokens/Chain.java:78-90 | a chain's parse error is the depth-1 `ParserError` of one of its targets |
| EngineFacts.OptionsLoopBounded | src/main/java/com/vijie/core/tokens/OptionsChain.java:82-105 | a parsed options chain holds between one and one-per-target tokens |
| EngineFacts.OptionsLoopCollects | src/main/java/com/vijie/core/tokens/OptionsChain.java:82-105 | the options loop completes exactly when the reference `OptionsAt` gathers from the remainder and the chain is non-empty; it then holds the prefix plus exactly the gathered tokens, one per target parsed in order where the previous ended; an empty chain raises the `EmptyChainError` of all target types with the earlier misses followed by each missed target's cause, in order |
| EngineFacts.OptionsLoopFails | src/main/java/com/vijie/core/tokens/OptionsChain.java:82-105 | for any targets, a multi-error from the options loop is the `EmptyChainError` over all target types carrying the errors recorded before the loop followed by at most one cause per remaining target |
| EngineFacts.OptionsChainExtent | src/main/java/com/vijie/core/tokens/OptionsChain.java:82-105 | an options chain succeeds exactly when `OptionsAt` gathers at least one token, and is then the composite over exactly those tokens, between one and one per target; gathering none fails with the `EmptyChainError` over the targets' types carrying the misses' causes in target order |
| CombinatorFacts.DefinedCharSpec | src/main/java/com/vijie/core/tokens/DefinedChar.java:67-89 | a `DefinedChar` parses exactly a whitelisted current character into a one-child token; a non-character is `ExpectedGlyphError`, a character outside the whitelist `InvalidCharError` |
| CombinatorFacts.OptionalSpec | src/main/java/com/vijie/core/parsers/Optional.java:61-67 | `Optional` returns its target's token, turns a `ParserError` into `OptionalNotFound`, and has no other parse error |
| CombinatorFacts.AnyPicksAnAlternative | src/main/java/com/vijie/core/parsers/Any.java:77-93 | a successful `Any` loop returns the parse of an alternative whose trial succeeded |
| CombinatorFacts.AnyStep | src/main/java/com/vijie/core/parsers/Any.java:77-93 | one alternative: a parse error is collected (an `OptionalNotFound` adds none) and the next is tried; otherwise its outcome is the result |
| CombinatorFacts.AnyRejectsOnlyIfAllFail | src/main/java/com/vijie/core/parsers/Any.java:77-93 | `Any` fails with a parse error only after every alternative failed |
| CombinatorFacts.FirstWorkingIsFirst | src/main/java/com/vijie/core/parsers/Any.java:81-88 | the alternative `Any` settles on is the first one not failing with a parse error: every earlier alternative fails with one |
| CombinatorFacts.AnyLoopSettles | src/main/java/com/vijie/core/parsers/Any.java:77-93 | the loop returns the first working alternative's outcome (its parse after a successful probe, or its non-parse fault); when every alternative fails with a parse error, the `AnyParserError` over all types with the errors collected before followed by each failing alternative's `ParserError` in order, none for an `OptionalNotFound` |
| CombinatorFacts.AnyRejection | src/main/java/com/vijie/core/parsers/Any.java:81-92 | that error is the `AnyParserError` over all types, carrying exactly the wrapped errors of the failing alternatives in order (`PassedErrors`), hence at most one per alternative |
| CombinatorFacts.AnySpec | src/main/java/com/vijie/core/parsers/Any.java:77-93 | `Any` as a parser has exactly the outcome of its first alternative that does not fail with a parse error, every earlier one having failed; when all fail, it is the `AnyParserError` over its types with, in order, one `ParserError` per failing alternative and none for an `OptionalNotFound` |
| CombinatorFacts.ChainSpec | src/main/java/com/vijie/core/tokens/Chain.java:78-90 | a `Chain` succeeds exactly when `CollectAt` collects from its input, and is then the composite over exactly the collected tokens: per target in order, the token it parses where the previous ended, or none when missed there as an optional |
| CombinatorFacts.TryParseOfFactory | src/main/java/com/vijie/core/parsers/GenericFactory.java:29-40 | a token `tryParse` returns for a factory is before end of input and is what the factory built on the copy of the remainder |
| CombinatorFacts.FactoryYieldsItsClass | src/main/java/com/vijie/core/parsers/GenericFactory.java:29-40 | what a factory parses is a composite of the factory's class |
| CombinatorFacts.DefinedCharYields | src/main/java/com/vijie/core/tokens/DefinedChar.java:67-89 | the token a `DefinedChar` returns holds the character symbol at the cursor, which is on its whitelist |
| CombinatorFacts.PadLoop | src/main/java/com/vijie/core/tokens/Array.java:110-125 | the repetition loop of a `Trimmed` array fuses only blacklisted `DefinedChar` tokens from the cursor on and keeps the prefix |
| CombinatorFacts.TrimmedArrayPads | src/main/java/com/vijie/core/tokens/Trimmed.java:35-37 | a parsed `Trimmed` array (minimum one, unbounded) is a padding: at least one child, each a `DefinedChar` over a blacklisted character |
| CombinatorFacts.PaddingIsTrimmed | src/main/java/com/vijie/core/tokens/Trimmed.java:24-37 | what `Trimmed.parser` parses is a padding: a `Trimmed` token over at least one character, each on the blacklist |
| CombinatorFacts.CollectAtHead | src/main/java/com/vijie/core/tokens/Chain.java:80-86 | a chain's first target contributes the token it parses at the start of the remainder, or none when missed there as an optional, and the other targets collect the rest from where that token ends |
| CombinatorFacts.PaddingTokens | src/main/java/com/vijie/core/tokens/Trim.java:41-47 | a padding target contributes at most one token, a padding over its blacklist parsed at the start of the remainder, or none when missed there |
| CombinatorFacts.TrimTokens | src/main/java/com/vijie/core/tokens/Trim.java:41-47 | the tokens a `Trim` chain collects are left padding, target token and right padding, each parsed (or missed) where the previous one ended |
| CombinatorFacts.TrimSpec | src/main/java/com/vijie/core/tokens/Trim.java:41-47 | a `Trim` succeeds exactly when its chain collects, and then holds an optional left padding, the target's token (absent only when the target is missed where the padding ends) and an optional right padding, each at its place, each padding a `Trimmed` token over at least one blacklisted character |
| CombinatorFacts.CastSpec | src/main/java/com/vijie/core/tokens/Cast.java:45-56 | a `Cast` succeeds exactly when its target does, wrapping the target's token as its only child |
| CombinatorFacts.InterruptionFusesPartialToken | src/main/java/com/vijie/core/Sequence.java:485-503 | an interrupter thrown by a token's `parse` leaves the partial token fused at the pointer, the rest cleared and the pointer past it, and the interrupter rethrown |
| RecoveryFacts.FindAdvance | src/main/java/com/vijie/core/Sequence.java:429-449 | each search step either steps over one character symbol or stops without moving |
| RecoveryFacts.SkippedOneMore | src/main/java/com/vijie/core/Sequence.java:429-449 | skipped character symbols accumulate |
| RecoveryFacts.FindSkipsGlyphs | src/main/java/com/vijie/core/Sequence.java:429-449 | `find` skips only character symbols and changes no token; the target fails at every skipped place, and success stops at a place where it parses, before end of input; failure is `NotFoundError` |
| RecoveryFacts.PlaceShift | src/main/java/com/vijie/core/Sequence.java:429-449 | the search resumed at the next character tries each later place with the same fuel |
| RecoveryFacts.FindResultShift | src/main/java/com/vijie/core/Sequence.java:429-449 | a miss at the cursor followed by the search's promise from the next character is the promise from the cursor |
| RecoveryFacts.DummyFinishHoldsSkipped | src/main/java/com/vijie/core/dummy/UnknownToken.java:25-36 | a dummy keeps exactly the skipped characters and is an `EOFInterrupter` when none were skipped |
| RecoveryFacts.UnexpectedSpec | src/main/java/com/vijie/core/dummy/UnexpectedToken.java:23-30 | an `UnexpectedToken` holds the non-empty run of leading character symbols before the first place where the sync target parses |
| RecoveryFacts.UnknownSpec | src/main/java/com/vijie/core/dummy/UnknownToken.java:25-36 | an `UnknownToken` holds the non-empty run of leading character symbols before the first place where the sync target parses |
| RecoveryFacts.FailedSpec | src/main/java/com/vijie/core/dummy/FailedToken.java:34-49 | a `FailedToken` rethrows its interruption when the search finds nothing, throws `EOFInterrupter` when it skipped nothing, and otherwise holds the skipped characters plus a `Break` at the last one's offset, the sync target parsing right after them |
| RecoveryFacts.FailedParseSteps | src/main/java/com/vijie/core/dummy/FailedToken.java:34-49 | `FailedToken.parse` is the search, then the rethrow of its interruption on `NotFoundError`, or the cut |
| RecoveryFacts.FindForFailed | src/main/java/com/vijie/core/Sequence.java:429-449 | the search skips characters only, stops where the sync target parses, and fails with a parse error only as `NotFoundError` |
| RecoveryFacts.FailedDone | src/main/java/com/vijie/core/dummy/FailedToken.java:44-48 | a cut after a search stopped where the sync target parses holds the run and the `Break` |
| RecoveryFacts.FindThenFinish | src/main/java/com/vijie/core/dummy/UnexpectedToken.java:23-30 | the search followed by the shared cut of `UnexpectedToken` and `UnknownToken` keeps the run before the first place where the sync target parses |
| RecoveryFacts.FailedFinishSpec | src/main/java/com/vijie/core/dummy/FailedToken.java:44-48 | after a search over characters, the cut keeps exactly the skipped run and appends the `Break`; an empty run is `EOFInterrupter` |
| RecoveryFacts.UnknownRethrows | src/main/java/com/vijie/core/dummy/UnknownToken.java:25-36 | when synchronisation is not found, `UnknownToken` rethrows its interrupter, and it never throws a parse error |
| RecoveryFacts.MissingSpec | src/main/java/com/vijie/core/dummy/MissingToken.java:32-35 | a `MissingToken` is a zero-width `Epsilon` at the current offset, with the rest cleared |
| RecoveryFacts.ParseTokenFails | src/main/java/com/vijie/core/parsers/Savior.java:103-117 | building a dummy always ends in an exception (the `FailedTokenInterruption` carrying it) |
| RecoveryFacts.SaviorNeverFabricates | src/main/java/com/vijie/core/parsers/Savior.java:58-78 | `Savior` returns a token exactly when its target does, and then the same token |
| RecoveryFacts.SaviorRecoversOnlyInterrupters | src/main/java/com/vijie/core/parsers/Savior.java:58-101 | a dummy is produced only from an interrupter, a non-fatal interruption, or a dummy passed up; a fatal interruption passes through unchanged |

## Left out

- Reflection: `CompositeToken.instantiate`, `Utils.prependParamType` and `inferParamsTypes`, and `Savior.instantiateInterrupter`. Parsers are data (`Grammar.Rule`), and a factory builds its token by interpretation.
- Text rendering: `getTraceback`, `getTreeRepr`, `getSequenceRepr`, `getParseRepr` and `toString`. Only the indent (`Tree.Indent`) is modelled.
- `Sequence.insert` and `Root.insert`: editing is not part of parsing.
- `iterator`, `stream`, `spliterator`, `forEach`, `equals`/`hashCode` of `Sequence`, and `TokenStream.toList`/`toArray`/`getValues(generator)`. These are Java collection plumbing; in value semantics they are the identity.
- `Sequence.getPointerIndex` and `get(cursor)`. They are used only by rendering and casts.
- Parent links: `setParent`, `reroot` and the stored `parent` field. A parent is recomputed from the token's position in the tree (module `Tree`), so `Sequence.parse` passes no parent.
- Grammar-defined `getValue` methods (`Array`, `Chain`, `OptionsChain`, `Cast` subclasses) are a parameter `user`, because they are grammar code rather than core.
- The legacy recovery (`core/UnknownToken`, `core/UnexpectedToken`, `core/MissingToken`, `safe/*`, `SafeParser`, `Unparser_`, `UnparsedToken`) is superseded by `Savior` and the `dummy` package, which are modelled.
- `Engine.CharParse`, `Engine.DefinedCharBody`, `EngineFacts.CharStep` and `CombinatorFacts.DefinedCharSpec`: the checks and casts against `com.vijie.core.Glyph` in `parsers/Char.java:3,23-24,38` and `tokens/DefinedChar.java:4,60,76,84` are read as "is a `symbols.Atom`" (`IsGlyph`), the symbols `Sequence.tokenize` produces (`Sequence.java:9,35`). As written, no tokenized symbol is a `Glyph`, so `Char` and `DefinedChar` would reject every input with `ExpectedGlyphError`.
- `Engine.Run` and the rest of the engine: every nested parse and loop iteration costs one unit of `fuel`. An exhausted budget is the model-only fault `OutOfFuel`, so the model says nothing about inputs that would need more steps, or about Java's non-termination (an `Array` whose target keeps throwing `OptionalNotFound` without moving loops forever).
- `EngineFacts.UnionHasOneChild`: proved only for rule trees without `Savior` (`AllPlain`). A recovery can fuse a dummy and change the sequence.
- `EngineFacts.ArrayExtent`: proved only for a target without `Savior`, for the same reason. It holds for the corrected array ending (`Engine.ArrayFinish`, see Findings); as written, `Array.java:121` keeps the `EOF` when the repetitions reach end of input, one child more.
- `EngineFacts.LiteralSound`: holds for the corrected array ending (`Engine.ArrayFinish`); as written, a literal ending in "null" also accepts the input without that ending, holding the `EOF` as its last child (`EngineFacts.LiteralAcceptsShorterInput`, see Findings).
- `EngineFacts.LiteralComplete`: holds for the corrected array ending (`Engine.ArrayFinish`); as written, a literal reaching end of input keeps the `EOF` and is rejected (`EngineFacts.ArrayAtEndOfInput`).
- `EngineFacts.ChainExtent`: proved only for targets without `Savior`.
- `EngineFacts.OptionsChainExtent`: proved only for targets without `Savior`.
- `CombinatorFacts.OptionalSpec`: proved only for a target without `Savior`, and for the `ParserError` case. An `OptionalNotFound` from the target is passed through.
- `CombinatorFacts.CastSpec`: proved only for a target without `Savior`.
- `CombinatorFacts.ChainSpec`: proved only for targets without `Savior`.
- `EngineFacts.ChainLoopCollects` and `EngineFacts.OptionsLoopCollects`: proved only for targets without `Savior`.
- `EngineFacts.OptionsLoopFails`: for targets that may hold `Savior` it promises only the shape of the error (earlier misses followed by at most one cause per target); which causes, in target order, is stated by `EngineFacts.OptionsLoopCollects` for targets without `Savior`.
- `CombinatorFacts.TrimSpec`: proved only for a target without `Savior`.
- `CombinatorFacts.PaddingIsTrimmed`, `CombinatorFacts.TrimmedArrayPads` and `CombinatorFacts.TrimSpec`: hold for the corrected array ending (`Engine.ArrayFinish`); as written, `Array.java:121` keeps the `EOF` when a padding reaches end of input, so that padding would also hold the `EOF` symbol.
- `RecoveryFacts.ParseTokenFails`: states only that the outcome is a failure. Which dummy is carried is stated by the engine's definition, not by a contract.
- `Savior.onInterrupter` has no fatal-interrupter check, as written (`parsers/Savior.java:93-101`). A fatal interrupter thrown directly by the target is therefore recovered like any other; the model follows the code.
- `Union.parse` passes `parent`, not `this`, to `sequence.parse` (`tokens/Union.java:71-89`). This is modelled as union transparency in `Tree.Holder`, and it does not affect parsing.
- `TokenStream.filter(type, types...)` passes an array to `matches`, for which only the `Class` and `Iterable` overloads exist. It is modelled as "matches one of the types", the `Iterable` reading.
- `Streams.Curate`: `curate` drops `IGenericFailedToken`s, which only the legacy recovery classes implement; those are not modelled. The dummies of the `dummy` package implement `IDummyToken` (`interfaces/IDummyToken.java:8`), which extends `ICompositeToken` only, so `curate` keeps them (`Streams.CurateKeepsAll`).
- `Tree.Parent`: a character symbol lying directly in the top token that the top token's own parse stepped over with `Char` has the top token as parent in Java (`parsers/Char.java:38-41`). A tree does not record which top-level symbols that happened to, and the model gives none of them a parent; this is exact for the ones no parse reached, such as the closing `EOF`.
- `Tree.DepthIsPathLength`: excludes symbols lying directly in the root. Their depth is 1 when the root's own `Char` parsed them and 0 otherwise, which the tree does not record (see `Tree.Parent`).
- `DefinedChar.parse` catches `EOFError`, but `getCurrent` throws `EOFException`. The model keeps the code: the exception escapes as a runtime fault. The case cannot occur inside the engine, because a token's own sequence is never empty at pointer 0.
- The concrete grammar leaves (`Letter`, `Digit`, `Word`, `Numeric` and so on) are instances of `DefinedChar`, `Array` and `Literal` with fixed arguments.

## Findings

| source | as written | input that shows it | evidently intended | confidence | as-written member | corrected member |
|---|---|---|---|---|---|---|
| src/main/java/com/vijie/core/tokens/Array.java:121 | `if (!isEof) clearFrom()`: when the repetitions reach end of input, the `EOF` symbol is kept as an extra child, so a `Literal` joins it as `"null"` | `StringLiteral.parser("foo")` on `"foo"`: the join is `"foonull"`, and `LiteralDoesNotMatch` is thrown (the string-literal test at src/test/java/com/vijie/TestCore.java:431-441 expects success) | always drop what follows the last repetition | medium, not executed | EngineFacts.ArrayAtEndOfInput | EngineFacts.LiteralAtEndOfInput |
| src/main/java/com/vijie/core/tokens/Array.java:121 | the kept `EOF` joins as `"null"`, and `Literal.parse` swallows the `UndersizedArrayError` (`tokens/Literal.java:59-61`), so a literal ending in "null" matches input missing those four characters | `StringLiteral.parser("null")` on the empty input: the array holds only the `EOF`, is undersized (swallowed), joins to `"null"`, and the literal succeeds with the `EOF` as its only child | a literal matches only its own characters | medium, not executed | EngineFacts.LiteralAcceptsShorterInput | EngineFacts.LiteralRejectsShorterInput |
| src/main/java/com/vijie/core/errors/ParserError.java:51-53 | `getSource().getClass().isAssignableFrom(type)` holds when `type` is a subclass of the source's class | a `ParserError` caused by an `EOFParseError`: `isSource(GenericParseError.class)` is false | `type.isInstance(getSource())`: the source is an instance of `type` | medium, not executed | Errors.IsSourceAsWrittenIsReversed | Errors.IsSourceAcceptsSuperclasses |

The engine uses the corrected array ending (`Engine.ArrayFinish`). The code as written is kept as `Engine.ArrayBodyAsWritten`, with `Engine.ArrayFinishAsWritten`, and `Literal.parse` over it as `Engine.LiteralBodyAsWritten`. `Errors.IsSource` is the corrected test, and `Errors.IsSourceAsWritten` models the code as written.
