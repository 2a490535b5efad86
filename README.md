# member-sorter, modelled in Dafny

member-sorter is a VS Code extension. It reorders the members of the first
class in a C#, TypeScript or JavaScript document. The work happens in two
stages.

- **Extraction.** A parser picks the extractor by the document's language.
  The C# extractors find the first `public [partial] class Name [: Base] {`
  signature, count braces to find the class's closing `}`, and run
  left-to-right regex passes over the class body. The TypeScript/JavaScript
  extractor looks for no class: it runs its two regex passes over the whole
  document. Each pass yields members that carry a name, a visibility, a
  text, a character range and a kind (field, property or method).
- **Sorting.** `sortMembers` removes repeated names and sorts the rest by
  kind, then by visibility, then by name. It groups them by kind, re-indents
  them, and replaces the class body with the rendered groups.

This project models both stages and proves what they promise. That covers:

- the brace-count invariants;
- first-occurrence-wins deduplication;
- the order of the passes;
- the constructor exclusion;
- the method-body extension loop;
- sortedness and permutation of the sort;
- the exact shape of the replacement text.

Modules, in dependency order:

| module | file | what it holds |
|---|---|---|
| `Strings` | strings.dfy | JavaScript string operations: `indexOf`, `trim`, `split` and `join`, and `filter(Boolean)` on strings |
| `Members` | members.dfy | the `IMember` record (src/types.ts), with the editor `Range` replaced by a pair of offsets |
| `Patterns` | patterns.dfy | the member regexes as hand-written recognizers; `exec` with the `g` flag (`FindNext`) and the `while (exec)` loop's matches (`Hits`) |
| `ClassPattern` | class_pattern.dfy | the class-signature regex and `getClassName`'s regex |
| `Braces` | braces.dfy | the class brace scan (`FindClassEnd`) and the method-body extension loop (`ExtendMethodText`) |
| `Dedup` | dedup.dfy | the seen-set dedup of the extractors (`KeepFirst`, `Accumulate`) and the `filter`/`findIndex` dedup of `sortMembers` (`UniqueMembers`) |
| `CSharpParser` | csharp_parser.dfy | `CSharpParser.parseWithRegex` and `getClassName` |
| `Parser` | parser.dfy | `Parser.parseDocument`, `parseTypeScript` and the unused `parseCSharp` |
| `MemberSorter` | member_sorter.dfy | the comparator, the sort, grouping, indentation, rendering and the replace |

Each `while (exec)` loop and brace loop of the source is a Dafny `method`
with a `while` loop. Its `ensures` ties the result to a specification
function:

- `ParseWithRegex` ensures `members == CSharpMembers(text)`;
- `ParseTypeScript` ensures `members == TypeScriptMembers(text)`;
- `FindClassEnd` ensures `classEnd == ClassEnd(...)`;
- `ExtendMethodText` ensures its result is `text[start..ExtendedEnd(...)]`;
- `SortMembers` ensures `outcome == SortOutcome(...)`.

Lemmas about those functions state what the source promises. The pure parts
of `sortMembers` are functions: the `filter` chains, the comparator, and the
`map`/`join` rendering.

The code does the following, and the model follows it:

- **Unlisted visibilities sort first.** The comparator's order list is the
  hard-coded `['public', 'protected', 'private']` (src/memberSorter.ts:90).
  `indexOf` gives -1 for `internal`, so an `internal` member sorts *before*
  the `public` members of its kind (`MemberSorter.VisibilityOrder`).
- **`parseCSharp` ranges are not shifted.** In the unused copy, property and
  method ranges are not offset by `classStart` (src/parser.ts:136-137,
  164-165). Field ranges are (`Parser.UnusedReported`).
- **Separators never appear.** The `''` group separators of `sortMembers` are
  falsy, so the outer `filter(Boolean)` drops them. The rendered members are
  therefore separated by exactly one blank line, whatever their groups
  (`MemberSorter.PiecesRendered`).
- **A method's text need not balance.** The extension loop stops as soon as
  the text holds no more `{` than `}` (src/csharpParser.ts:91). A lazy
  match can already hold more `}` than `{`, for instance when a `{` sits in
  a string literal or a `}` the regex skipped sits behind `//`; then the
  text is kept as it is (`{}}}` and `{{}` are both possible texts), and
  nothing proves the braces balance (`Braces.ExtendedEnd`).
- **TypeScript members come from the whole document.** `parseTypeScript`
  runs its patterns over all of `document.getText()` (src/parser.ts:27-66),
  so a member is found even with no class around it
  (`Parser.TypeScriptMembersFacts`). `sortMembers` still replaces the body of
  the first `public class` its own regex finds (src/memberSorter.ts:35), so
  for TypeScript and JavaScript that body is filled with members gathered
  from the whole document (`MemberSorter.EditBody`).
- **The whole class body is replaced.** Text between members, such as
  comments, is not kept (`MemberSorter.EditBody`).

## Model

| member | source | states |
|---|---|---|
| Members.ChainConcat | src/csharpParser.ts:34-109 | passes concatenated keep pass order when every member of an earlier pass precedes every member of a later one |
| Strings.IsSpace | src/csharpParser.ts:34 | the JavaScript `\s` class (WhiteSpace and LineTerminator), which `trim()` also strips; `Strings.TrimIsTrimmed` and `Strings.TrimStrips` rely on it |
| Strings.IndexOfFrom | src/csharpParser.ts:92 | `indexOf(c, from)` is -1 or an index at or after `from` that holds `c` |
| Strings.IndexOfFromFacts | src/csharpParser.ts:92 | a -1 means no `c` from `from` on; otherwise no `c` lies between `from` and the index found |
| Strings.IndexOf | src/memberSorter.ts:103-104 | `order.indexOf(x)` is the first position of `x`, and it is -1 exactly when `x` is not in the list |
| Strings.Trim | src/csharpParser.ts:46 | `String.prototype.trim`; `Strings.TrimIsTrimmed`, `Strings.TrimStrips` and `Strings.TrimOfTrimmed` state what it removes and keeps |
| Strings.LeadingSpace | src/memberSorter.ts:64 | the match of `^\s*`, the leading whitespace of a line (also src/parser.ts:141); `MemberSorter.IndentFacts` and `Parser.FormatLinesOfHit` state its use |
| Strings.TrimIsTrimmed | src/csharpParser.ts:46 | `trim()` leaves no whitespace at either end |
| Strings.TrimStrips | src/csharpParser.ts:46 | `trim()` only removes whitespace around the kept middle part |
| Strings.TrimOfTrimmed | src/csharpParser.ts:102 | trimming trimmed text changes nothing |
| Strings.TrimNonEmpty | src/memberSorter.ts:76 | text starting with a non-space character trims to a non-empty string with the same first character |
| Strings.TrimAfterSpace | src/memberSorter.ts:76-79 | trimming indent + trimmed text gives back the trimmed text |
| Strings.TrimKeeps | src/memberSorter.ts:74-79 | trimming never introduces a character, so a line without a line break stays without one |
| Strings.Split | src/memberSorter.ts:74 | `split('\n')` gives at least one piece, and no piece contains the separator |
| Strings.Join | src/memberSorter.ts:80 | `xs.join(sep)`; `Strings.JoinSplit`, `Strings.SplitJoin` and `MemberSorter.JoinNonEmpty` state how it relates to `split` |
| Strings.JoinSplit | src/memberSorter.ts:74 | joining the pieces of `split(c)` with `c` gives back the text |
| Strings.SplitJoin | src/memberSorter.ts:80 | splitting a join of separator-free pieces gives back the pieces |
| Strings.SplitFirst | src/memberSorter.ts:74-79 | text starting with a character other than the separator has a first piece starting with the same character |
| Strings.Compact | src/memberSorter.ts:80 | `filter(Boolean)` on strings keeps only non-empty strings and keeps a list without empty strings whole |
| Strings.CompactAppend | src/memberSorter.ts:83 | `filter(Boolean)` distributes over concatenation |
| Strings.CompactKeeps | src/memberSorter.ts:80 | filtering keeps every kept string free of a character that no input string held |
| Strings.TrimAll | src/parser.ts:142 | `lines.map(line => line.trim())` trims every line and keeps their number |
| Patterns.FieldTail | src/csharpParser.ts:34 | the field regex after its keyword (type token, name, optional initializer, `;`): a match ends after its start, inside the text, and captures an identifier |
| Patterns.PropertyTail | src/csharpParser.ts:56 | the auto-property regex after its keyword, typed alternative before untyped: a match ends after its start, inside the text, and captures an identifier |
| Patterns.MethodHead | src/csharpParser.ts:77 | the method regex's type tokens and name: the name is an identifier followed by a `(` inside the text |
| Patterns.TerminatorEnd | src/parser.ts:32 | the TypeScript property terminator (`=...;`, `;` or `{ get; set; }`, tried in that order) ends after its start, inside the text |
| Patterns.CSharpFieldAt | src/csharpParser.ts:34 | an anchored match of the field regex is non-empty, starts with its visibility keyword (one of the four), and captures an identifier |
| Patterns.CSharpPropertyAt | src/csharpParser.ts:56 | an anchored match of the auto-property regex is non-empty, starts with its visibility keyword, and captures an identifier |
| Patterns.CSharpMethodAt | src/csharpParser.ts:77 | an anchored match of the method regex is non-empty, starts with its visibility keyword, and captures an identifier |
| Patterns.LazyBodyEnd | src/csharpParser.ts:77 | the lazy `[\s\S]*?` body stops at the first `}` that has no `//` before it on its line |
| Patterns.CSharpNestedMethodAt | src/parser.ts:102 | an anchored match of the unused copy's method regex (one level of nested braces) is non-empty, starts with its keyword, and captures an identifier |
| Patterns.NestedBodyEnd | src/parser.ts:102 | the body with one level of nested braces ends at a `}` |
| Patterns.OptionalLead | src/parser.ts:32-33 | a TypeScript match captures an identifier, and its optional visibility is one of the three TypeScript keywords |
| Patterns.TypeScriptPropertyTail | src/parser.ts:32 | the property tail (`: type`, then `=...;`, `;` or `{ get; set; }`) ends inside the text, after its start |
| Patterns.TypeScriptMethodTail | src/parser.ts:33 | the method tail (`(params) {...}`) ends inside the text, after its start |
| Patterns.MatchAt | src/csharpParser.ts:34-77 | every pattern's anchored match is well-formed: non-empty, inside the text, with an identifier name and a well-placed visibility |
| Patterns.MatcherOf | src/csharpParser.ts:36 | every match ends after its start, so an `exec` loop always advances |
| Patterns.FindNext | src/csharpParser.ts:36 | `exec` with `lastIndex` returns a non-empty match at or after `lastIndex` and inside the text |
| Patterns.FindNextFacts | src/csharpParser.ts:36 | `exec` returns the leftmost match: it is a match at its index, and there is none between `lastIndex` and it; `null` means none from `lastIndex` on |
| Patterns.Hits | src/csharpParser.ts:36 | the matches an exec loop sees all lie inside the text, after the starting index |
| Patterns.HitsStep | src/csharpParser.ts:36 | one exec round: no match ends the loop; otherwise the loop goes on from the end of the match |
| Patterns.HitsOrdered | src/csharpParser.ts:36 | the matches of one exec loop come in text order and do not overlap |
| Patterns.HitsFacts | src/csharpParser.ts:36 | every match an exec loop sees is a match of the pattern at its index |
| Patterns.HitWellFormed | src/csharpParser.ts:37-38 | `match[2]` is an identifier; for C# `match[1]` is always present and is the keyword the match starts with, so the `'public'` default never applies |
| Patterns.NoHitsInEmpty | src/csharpParser.ts:31 | an empty class body yields no matches |
| ClassPattern.ClassSignature | src/csharpParser.ts:15 | the class signature match lies inside the text, and the body starts just after its `{` |
| ClassPattern.ClassSignatureLeftmost | src/csharpParser.ts:15 | `text.match` finds the leftmost signature, and `null` means there is none anywhere |
| ClassPattern.ClassSignatureAt | src/csharpParser.ts:15 | an anchored signature match ends just after a `{` |
| ClassPattern.BaseThenBrace | src/csharpParser.ts:15 | the optional `: Base` and the `{` end just after a `{` |
| ClassPattern.ClassHeadAt | src/csharpParser.ts:115 | `getClassName`'s regex at one offset: a match ends after it, inside the text, and captures an identifier |
| ClassPattern.FirstClassName | src/csharpParser.ts:115 | the name captured by `getClassName`'s regex is an identifier |
| Braces.Depth | src/csharpParser.ts:19-24 | the brace count after a stretch of the class body, from 1: one up per `{`, one down per `}`; `Braces.DepthStep` states each step |
| Braces.ClassEnd | src/csharpParser.ts:18-31 | `classEnd`; `Braces.ClassEndFacts` states it is the first `}` at count 0, or `classStart` when the count never reaches 0 |
| Braces.MatchingBrace | src/csharpParser.ts:19-29 | starting at depth 1, the scan stops at the first index where the depth reaches 0, and it reports none when the depth never does |
| Braces.MatchingBraceFacts | src/csharpParser.ts:19-29 | the index found holds a `}`, and the depth stays at least 1 up to it, or up to the end of the text when there is none |
| Braces.DepthStep | src/csharpParser.ts:23-24 | one loop step raises the depth on `{`, lowers it on `}`, and otherwise keeps it |
| Braces.ClassEndFacts | src/csharpParser.ts:18-31 | `classEnd` is the first `}` at which the count reaches 0, with the count at least 1 before it; when it never reaches 0, `classEnd == classStart` and the body text is empty |
| Braces.FindClassEnd | src/csharpParser.ts:19-29 | the `for` loop computes `ClassEnd`, a position between `classStart` and the end of the text |
| Braces.ExtendedEnd | src/csharpParser.ts:91-97 | when extension stops, the text holds no more `{` than `}` or no `}` follows it; an extended text ends with `}` |
| Braces.ExtendedEndStep | src/csharpParser.ts:91-96 | one loop round: with no more `{` than `}`, or no further `}`, the text is kept; otherwise it grows to the next `}` |
| Braces.ExtendMethodText | src/csharpParser.ts:87-97 | the `while (openBraces > closeBraces)` loop yields the body text from `match.index` to `ExtendedEnd`, reached by strictly growing steps |
| Dedup.KeepFirst | src/csharpParser.ts:40-41 | the `seenMembers` skip over a pass's candidates; `Dedup.KeepFirstFacts`, `Dedup.KeepFirstNames` and `Dedup.KeepFirstIsFirst` state what it keeps |
| Dedup.Accumulate | src/csharpParser.ts:36-53 | a pass's pushes into `members` and `seenMembers`; `Dedup.AccumulateKeepFirst` shows it appends `KeepFirst` of the candidates |
| Dedup.FirstOccurrences | src/memberSorter.ts:26-28 | the `filter`/`findIndex` dedup over the first `n` members; `Dedup.FilterKeeps` states which indices it keeps |
| Dedup.UniqueMembers | src/memberSorter.ts:26-28 | `uniqueMembers`; `Dedup.UniqueMembersFacts` and `Dedup.UniqueMembersOrder` state its properties |
| Dedup.FindIndex | src/memberSorter.ts:27 | `findIndex` by name gives the first index with that name, and -1 exactly when no member has it |
| Dedup.KeepFirstFacts | src/csharpParser.ts:40-41 | the seen-set check keeps only candidates whose names were not seen, and kept names are pairwise distinct |
| Dedup.KeepFirstNames | src/csharpParser.ts:40-41 | every candidate name not seen before reaches the output |
| Dedup.KeepFirstIsFirst | src/csharpParser.ts:40-41 | the member kept for a name is the first candidate with that name |
| Dedup.KeepFirstChain | src/csharpParser.ts:40-41 | skipping candidates preserves their relative order |
| Dedup.KeepFirstOfUnique | src/csharpParser.ts:40-41 | candidates with distinct, unseen names all pass |
| Dedup.AccumulateKeepFirst | src/csharpParser.ts:36-53 | a loop that pushes unseen candidates appends the first occurrences and leaves every candidate name in the seen set |
| Dedup.AccumulateAppend | src/csharpParser.ts:36-109 | consecutive passes sharing one seen set are one pass over the concatenated candidates |
| Dedup.FilterKeeps | src/memberSorter.ts:26-28 | the filter keeps index `i` exactly when no earlier member has the same name |
| Dedup.UniqueMembersIsKeepFirst | src/memberSorter.ts:26-28 | the `filter`/`findIndex` dedup equals the seen-set dedup of the extractors |
| Dedup.UniqueMembersFacts | src/memberSorter.ts:26-28 | the dedup result has distinct names, keeps every name, keeps the first member of each name, preserves any order the input respects, and is idempotent |
| Dedup.FirstOccurrencesOrder | src/memberSorter.ts:26-28 | the members kept from the first `n` come from strictly increasing first positions below `n` |
| Dedup.UniqueMembersOrder | src/memberSorter.ts:26-28 | input order is kept: of two kept members, the earlier one first occurs earlier in the input |
| CSharpParser.GetClassName | src/csharpParser.ts:114-117 | the class name is an identifier, and it is `''` exactly when `getClassName`'s regex finds no class |
| CSharpParser.FirstClassNameFinds | src/csharpParser.ts:115 | a class head anywhere after the search start is found |
| CSharpParser.ClassNameOfSignature | src/csharpParser.ts:15 | whenever the full class signature matches, `getClassName` gives a non-empty name |
| CSharpParser.PassMember | src/csharpParser.ts:43-52 | the member a field or property match pushes; `CSharpParser.PassMemberReported` states its fields |
| CSharpParser.MethodMember | src/csharpParser.ts:99-108 | the member a method match pushes, with the extended text; `CSharpParser.MethodMemberOfText` and `CSharpParser.MethodMemberReported` state its fields |
| CSharpParser.Candidates | src/csharpParser.ts:34-109 | the three passes' candidates before the seen-set skip; `CSharpParser.CandidatesFacts` states their order |
| CSharpParser.CSharpMembers | src/csharpParser.ts:9-112 | `parseWithRegex`'s result; `CSharpParser.CSharpMembersFacts` and `CSharpParser.CSharpMembersEmpty` state its properties |
| CSharpParser.ParseWithRegex | src/csharpParser.ts:9-112 | the extractor returns `CSharpMembers(text)`: the three passes over the class body with one seen set |
| CSharpParser.SimplePass | src/csharpParser.ts:36-74 | a field or property exec loop appends its unseen candidates and adds their names to the seen set |
| CSharpParser.MethodPass | src/csharpParser.ts:78-109 | the method exec loop skips the class name, then appends unseen methods, each with its extended text |
| CSharpParser.PassFromAccumulate | src/csharpParser.ts:36-53 | the loop one exec result at a time equals accumulating the candidates of every match |
| CSharpParser.MethodFromAccumulate | src/csharpParser.ts:78-109 | the method loop one exec result at a time equals accumulating the method candidates of every match |
| CSharpParser.MethodMemberOfText | src/csharpParser.ts:99-108 | a method member holds the extended text trimmed and the range `classStart + match.index` to `classStart + match.index + methodText.length` |
| CSharpParser.FormatLines | src/parser.ts:140-142 | the unused copy's property text: the lines trimmed and joined by `\n` plus the first line's leading whitespace; `Parser.FormatLinesOfHit` states it for a match |
| CSharpParser.ShapedText | src/csharpParser.ts:46 | the text a pass stores: raw (src/parser.ts:46), trimmed (src/csharpParser.ts:46) or line by line (src/parser.ts:140-142); `CSharpParser.PassMemberReported` and `Parser.UnusedPassReported` state it |
| CSharpParser.PassCandidates | src/csharpParser.ts:36-74 | the members a field or property pass would push with no name taken, one per match; `CSharpParser.PassCandidatesReported` states them |
| CSharpParser.MethodCandidates | src/csharpParser.ts:78-109 | the members the method pass would push with no name taken, a match named after the class skipped (src/csharpParser.ts:82); `CSharpParser.MethodCandidatesFacts` states them |
| CSharpParser.PassFrom | src/csharpParser.ts:36-74 | the state of a field or property `while (exec)` loop from a given `lastIndex`; `CSharpParser.PassFromAccumulate` equates it with accumulating the candidates |
| CSharpParser.MethodFrom | src/csharpParser.ts:78-109 | the state of the method `while (exec)` loop from a given `lastIndex`; `CSharpParser.MethodFromAccumulate` equates it with accumulating the method candidates |
| CSharpParser.PassMemberReported | src/csharpParser.ts:43-52 | a field or property member has the captured keyword, an identifier name, a non-empty range in the class body, and that range trimmed as text |
| CSharpParser.MethodMemberReported | src/csharpParser.ts:99-108 | a method member (with its extended text) has the captured keyword, an identifier name, a non-empty range in the class body, and that range trimmed as text |
| CSharpParser.PassCandidatesReported | src/csharpParser.ts:36-74 | every candidate of a pass is well reported, carries the pass's kind, and the candidates come in increasing offset |
| CSharpParser.MethodCandidatesFacts | src/csharpParser.ts:78-109 | method candidates are well reported, never named after the class, and come in increasing offset |
| CSharpParser.CandidatesFacts | src/csharpParser.ts:34-109 | all candidates come fields first, then properties, then methods, each pass in increasing offset |
| CSharpParser.CSharpMembersFacts | src/csharpParser.ts:9-112 | names are pairwise distinct; each is kept from its first candidate regardless of kind; the kinds come in pass order with offsets increasing; texts are trimmed ranges of the body; no method is named after the class |
| CSharpParser.CSharpMembersEmpty | src/csharpParser.ts:15-31 | with no class signature, or with a class whose braces never balance, the result is empty |
| Parser.TypeScriptMembers | src/parser.ts:27-68 | `parseTypeScript`'s result; `Parser.TypeScriptMembersFacts` states its properties |
| Parser.UnusedCSharpMembers | src/parser.ts:71-177 | `parseCSharp`'s result; `Parser.UnusedCSharpFacts` and `Parser.UnusedCSharpEmpty` state its properties |
| Parser.DocumentMembers | src/parser.ts:15-24 | `parseDocument`'s result for a language; `Parser.DocumentMembersFacts` states the dispatch |
| Parser.RawFrom | src/parser.ts:37-66 | the members a TypeScript `while (exec)` loop pushes from a given `lastIndex`, one per match; `Parser.RawFromHits` equates it with mapping the matches |
| Parser.RawPass | src/parser.ts:37-66 | a TypeScript exec loop appends one member per match, without dedup |
| Parser.RawFromHits | src/parser.ts:37-50 | the loop one exec result at a time equals mapping every match to a member |
| Parser.ParseTypeScript | src/parser.ts:27-68 | the extractor returns `TypeScriptMembers(text)`: the property matches, then the method matches |
| Parser.TypeScriptHits | src/parser.ts:37 | TypeScript matches lie inside the text in increasing offset, and their optional visibility is a TypeScript keyword |
| Parser.RawCandidatesFacts | src/parser.ts:37-50 | one member per match, in match order, each with its raw text, offset and name, and a missing visibility read as `'public'` |
| Parser.TypeScriptMembersFacts | src/parser.ts:27-68 | only properties and methods; every property precedes every method; one member per match, no dedup; text is the raw untrimmed match; visibility defaults to `'public'` |
| Parser.ParseCSharp | src/parser.ts:71-177 | the unused copy returns `UnusedCSharpMembers(text)`: fields, then properties, then methods, with one seen set |
| Parser.FormatLinesOfHit | src/parser.ts:140-142 | since a match starts with a keyword, the property's indent is empty and its text is its lines trimmed, joined by `\n` |
| Parser.UnusedPassReported | src/parser.ts:106-174 | the copy's members have the four keywords and identifier names; fields as in the extractor; properties and methods with ranges relative to the class body |
| Parser.UnusedCandidates | src/parser.ts:104-174 | the unused copy's field, property and method pass candidates before the seen-set skip; `Parser.UnusedCandidatesFacts` states their order |
| Parser.UnusedCandidatesFacts | src/parser.ts:104-174 | the copy's candidates come fields, then properties, then methods, each in increasing offset |
| Parser.UnusedCSharpFacts | src/parser.ts:71-177 | the copy's names are pairwise distinct, each first in pass order, and in pass order with offsets increasing |
| Parser.UnusedCSharpEmpty | src/parser.ts:77-97 | the copy returns nothing without a class signature or when the class braces never balance |
| Parser.ParseDocument | src/parser.ts:12-25 | the dispatch returns `DocumentMembers(language, text)` |
| Parser.DocumentMembersFacts | src/parser.ts:15-24 | `typescript`/`javascript` give the TypeScript extractor's members; `csharp` gives the C# extractor's, with distinct names; any other language gives `[]` |
| MemberSorter.StrCompare | src/memberSorter.ts:111 | the name comparison returns -1, 0 or 1 |
| MemberSorter.StrCompareFacts | src/memberSorter.ts:111 | the name comparison is 0 exactly on equal names and is antisymmetric |
| MemberSorter.StrCompareTransitive | src/memberSorter.ts:111 | the name comparison is transitive |
| MemberSorter.StrCompareIsLexLess | src/memberSorter.ts:111 | the name comparison is negative exactly when the names are in lexicographic order |
| MemberSorter.AccessIndex | src/memberSorter.ts:103-104 | `order.indexOf(accessModifier)` over the hard-coded order, -1 when not listed; `MemberSorter.VisibilityOrder` states the resulting order |
| MemberSorter.Compare | src/memberSorter.ts:95-112 | the comparator; `MemberSorter.CompareIsKeyOrder` and `MemberSorter.CompareIsConsistent` state its order |
| MemberSorter.CompareIsKeyOrder | src/memberSorter.ts:95-112 | the comparator is negative exactly when (kind rank, visibility index, name) comes first, and 0 exactly on equal keys |
| MemberSorter.VisibilityOrder | src/memberSorter.ts:90-108 | within a kind: an unlisted visibility (e.g. `internal`) before `public`, `public` before `protected`, `protected` before `private` |
| MemberSorter.CompareTransitive | src/memberSorter.ts:95-112 | the comparator is transitive |
| MemberSorter.CompareIsConsistent | src/memberSorter.ts:95-112 | the comparator is consistent, as `Array.prototype.sort` requires: swapping the arguments flips the sign, and "not after" is transitive |
| MemberSorter.Insert | src/memberSorter.ts:95 | one insertion step of the sort: a member placed before the first it does not come after; `MemberSorter.InsertionSortFacts` states the sort it builds |
| MemberSorter.InsertionSort | src/memberSorter.ts:95 | `members.sort(cmp)` as an insertion sort; `MemberSorter.InsertionSortFacts` and `MemberSorter.SortedUnique` state its result |
| MemberSorter.InsertionSortFacts | src/memberSorter.ts:95 | the sort returns a sorted permutation of its input |
| MemberSorter.SortedUnique | src/memberSorter.ts:95 | two sorted permutations of a list without comparator ties are equal, so the sort's algorithm does not matter |
| MemberSorter.UniqueNamesNoTies | src/memberSorter.ts:111 | members with distinct names never tie |
| MemberSorter.SortByAccessModifier | src/memberSorter.ts:94-113 | `sortByAccessModifier`; `MemberSorter.SortFacts` states its result |
| MemberSorter.SortFacts | src/memberSorter.ts:94-113 | the sorted result is a permutation and non-decreasing by key; with distinct names it is the only such list, a sorted input is unchanged, and re-sorting changes nothing |
| MemberSorter.InsertionSortNames | src/memberSorter.ts:95 | sorting keeps the set of names and their distinctness |
| MemberSorter.OfKind | src/memberSorter.ts:58-60 | one group of `sortedMembers`; `MemberSorter.OfKindMembers` and `MemberSorter.GroupsPartition` state its members |
| MemberSorter.OfKindMembers | src/memberSorter.ts:58-60 | a group holds exactly the members of its kind |
| MemberSorter.GroupsPartition | src/memberSorter.ts:58-60 | the three groups together are a permutation of the list |
| MemberSorter.GroupsOfRankSorted | src/memberSorter.ts:58-60 | on a list sorted by kind, fields ++ properties ++ methods is the list itself |
| MemberSorter.SortedRanks | src/memberSorter.ts:97-100 | a sorted list has its kinds in field, property, method order |
| MemberSorter.LineText | src/memberSorter.ts:63 | `firstLine.text`; `MemberSorter.LineTextFacts` states which line it is |
| MemberSorter.Indent | src/memberSorter.ts:63-65 | `indent`; `MemberSorter.IndentFacts` states its shape |
| MemberSorter.LineTextFacts | src/memberSorter.ts:63 | `lineAt(...).text` is the text of the line holding the offset, without line breaks |
| MemberSorter.IndentFacts | src/memberSorter.ts:63-65 | the indent is the leading whitespace of the class-brace line plus four spaces: at least four whitespace characters, no line break |
| MemberSorter.ClassIndent | src/memberSorter.ts:63-65 | for a document with a class signature, the indent is whitespace of length at least 4 |
| MemberSorter.FormatLine | src/memberSorter.ts:75-79 | one re-indented method line; `MemberSorter.FormatLineContent` states its content |
| MemberSorter.MethodLines | src/memberSorter.ts:74-79 | a method's lines, each re-indented; `MemberSorter.FormatMethodFacts` states them |
| MemberSorter.FormatMethod | src/memberSorter.ts:72-82 | a method's rendering; `MemberSorter.FormatMethodFacts` states its lines |
| MemberSorter.FormatLineContent | src/memberSorter.ts:75-79 | a re-indented method line has the original line's trimmed content, is empty exactly when that line is blank, and gains no line break |
| MemberSorter.FormatMethodFacts | src/memberSorter.ts:72-82 | method lines are trimmed and blank ones dropped; the first line gets `indent` and every later line `indent` plus four spaces; the rendered piece splits back into its non-empty lines |
| MemberSorter.JoinNonEmpty | src/memberSorter.ts:80 | a join whose first piece is non-empty starts with that piece |
| MemberSorter.TruthySkips | src/memberSorter.ts:69-71 | the `''`/`null` group separators drop out of `filter(Boolean)` |
| MemberSorter.TruthySomes | src/memberSorter.ts:83 | `filter(Boolean)` over rendered strings is the empty-string filter |
| MemberSorter.Indented | src/memberSorter.ts:68 | the fields' and properties' pieces, each text behind `indent` (also src/memberSorter.ts:70); `MemberSorter.PiecesRendered` states what reaches the body |
| MemberSorter.Separator | src/memberSorter.ts:69 | `group.length > 0 ? '' : null` (also src/memberSorter.ts:71); `MemberSorter.TruthySkips` shows it never reaches the body |
| MemberSorter.MethodPieces | src/memberSorter.ts:72-82 | the methods' pieces, each re-indented line by line; `MemberSorter.PiecesRendered` states what reaches the body |
| MemberSorter.Truthy | src/memberSorter.ts:83 | the outer `filter(Boolean)` over strings and nulls; `MemberSorter.TruthySkips` and `MemberSorter.TruthySomes` state what it keeps |
| MemberSorter.Rendered | src/memberSorter.ts:67-82 | one member's piece: a method re-indented line by line, any other member behind `indent`; `MemberSorter.PiecesRendered` and `MemberSorter.RenderAllNonEmpty` state it |
| MemberSorter.RenderAll | src/memberSorter.ts:67-82 | every member's piece in list order; `MemberSorter.PiecesRendered` and `MemberSorter.RenderAllNonEmpty` state it |
| MemberSorter.Pieces | src/memberSorter.ts:67-82 | the array before `filter(Boolean)`; `MemberSorter.PiecesRendered` states what survives the filter |
| MemberSorter.PiecesRendered | src/memberSorter.ts:67-83 | the joined pieces are every member of the three groups, fields first, rendered, with empty renderings dropped and no separator left |
| MemberSorter.RenderAllNonEmpty | src/memberSorter.ts:67-83 | with a non-empty indent and methods starting with a non-space character, no member's rendering is dropped |
| MemberSorter.SortMembers | src/memberSorter.ts:15-87 | the command's outcome is `SortOutcome(language, text)`: no edit with no members, nothing with no class, otherwise the class body replaced |
| MemberSorter.SortOutcome | src/memberSorter.ts:15-87 | the command's outcome; `MemberSorter.SortOutcomeEarly`, `MemberSorter.EditRange` and `MemberSorter.EditBody` state it |
| MemberSorter.EditFor | src/memberSorter.ts:20-85 | the outcome once the members are parsed; `MemberSorter.EditRange` and `MemberSorter.EditBody` state the edit |
| MemberSorter.SortOutcomeEarly | src/memberSorter.ts:20-36 | with no members only a message is shown (always so for an unsupported language or a C# document without a class); the no-class return happens exactly when there are members but no class signature, never for C# |
| MemberSorter.SortedMembersFacts | src/memberSorter.ts:26-60 | the sorted list is sorted, a permutation of the deduplicated members with distinct names, keeps every name, and regroups to itself |
| MemberSorter.Replacement | src/memberSorter.ts:67-85 | the replacing text; `MemberSorter.ReplacementRendered` states its shape |
| MemberSorter.ReplacementRendered | src/memberSorter.ts:67-85 | the body is `\n`, the rendered members joined with exactly one blank line, and `\n` |
| MemberSorter.SortedBody | src/memberSorter.ts:58-85 | for any member list, the body of the sorted list is its rendered members, joined with a blank line and wrapped in `\n` |
| MemberSorter.EditRange | src/memberSorter.ts:35-55 | the replaced range runs from just after the class `{` to the `}` closing it, and is empty when the braces never balance |
| MemberSorter.EditIndent | src/memberSorter.ts:63-65 | the edit's indent is whitespace of length at least 4 |
| MemberSorter.EditBody | src/memberSorter.ts:26-85 | the replacement is the deduplicated, sorted members rendered with the class indent, joined with blank lines, wrapped in `\n` |
| MemberSorter.Edited | src/memberSorter.ts:85 | the document after `editBuilder.replace`; `MemberSorter.EditedKeeps` states what it keeps |
| MemberSorter.EditedKeeps | src/memberSorter.ts:85 | the edit keeps the text before and after the range and puts the body in between |
| MemberSorter.DistinctRenderedOnce | src/memberSorter.ts:26-83 | members with distinct names and non-blank texts are each rendered exactly once: dedup keeps them all and no rendering is dropped |
| MemberSorter.CSharpMembersRenderable | src/csharpParser.ts:40-108 | C# members have distinct names and texts that start with a non-space character |
| MemberSorter.CSharpSortKeepsAll | src/memberSorter.ts:15-87 | sorting a C# class renders every parsed member exactly once: the body holds as many pieces as the parser found members |
| MemberSorter.TypeScriptMembersRenderable | src/parser.ts:37-66 | TypeScript and JavaScript members have texts that are non-empty and start with a word character, so none renders to nothing |
| MemberSorter.DocumentMembersRenderable | src/parser.ts:15-24 | whenever the class body is replaced, every member the dispatch returns has a text starting with a non-blank character |
| MemberSorter.UniqueRenderable | src/memberSorter.ts:26-28 | dropping repeated names keeps members whose texts start with a non-blank character |
| MemberSorter.SortRendersEachOnce | src/memberSorter.ts:15-87 | in every language, when the class body is replaced, the dedup keeps every parsed name with distinct names, the sort permutes the result, and the body holds exactly one rendered piece per kept member |

## Left out

- The VS Code API is left out. `document.positionAt`, `Range` and
  `lineAt(...)` become offsets into the text, `showInformationMessage` and
  `showWarningMessage` become outcomes or are not modelled, and
  `editor.edit`/`editBuilder.replace` becomes the `MemberSorter.Outcome`
  value with the document after it (`MemberSorter.Edited`). The test
  doubles that stub `lineAt` are not modelled either.
- `async`/`await` and the `Promise` wrappers are left out. Everything
  underneath is sequential.
- src/extension.ts (command registration and activation) is not part of
  this model.
- The regex engine is not modelled in general. Each regex is a hand-written
  recognizer that follows the engine's backtracking order for that one
  pattern, and each recognizer guarantees only that its matches are
  well-formed. The exact language each one accepts is not proved against a
  regex semantics.
- MemberSorter.StrCompare: `localeCompare` (src/memberSorter.ts:111) is
  replaced by code-unit order, a total order that is 0 only on equal names.
  That is all the proved properties (permutation, sortedness,
  `MemberSorter.SortedUnique`) depend on. Names that differ in case or
  punctuation can come out in a different order than in the source: code-unit
  order puts `B` before `a`, while `'a'.localeCompare('B')` is negative. Locale
  collation is not modelled.
- Strings are sequences of Unicode characters, not JavaScript's UTF-16 code
  units. Offsets and lengths therefore differ from the source's for text
  outside the Basic Multilingual Plane.
- `getSortingStrategy` and `getAccessModifierOrder` (src/memberSorter.ts:6-13)
  read the configuration and are never called. The order used is the
  hard-coded list at src/memberSorter.ts:90.
- `MemberSorter.SortByAccessModifier` models `members.sort` as a function
  (an insertion sort) rather than in-place mutation of the array. The
  engine's sort algorithm is abstracted: `MemberSorter.SortedUnique` shows
  that any sorted permutation of a list with distinct names is the same list,
  and after deduplication the names are distinct. Because the source sorts
  the deduplicated array in place, the aliasing of `uniqueMembers` and
  `sortedMembers` is not modelled.
- `CSharpParser.MethodPass` takes the class name as a parameter. The source
  calls `getClassName(text)` on every round (src/csharpParser.ts:82), but the
  text never changes, so the value is the same every time.
- `MemberSorter.LineText` takes `\n` (with an optional `\r` before it) as the
  only line break. The editor also counts a lone `\r` and Unicode line
  separators.
- `parseCSharp` reads `match[1]` without a default (src/parser.ts:107). The
  model reads it as `match[1] || 'public'`. This makes no difference, because
  the C# patterns always capture the keyword (`Patterns.HitWellFormed`).
- Some test expectations are not promised because the code does not meet
  them. The expression-bodied method and the method without a visibility in
  src/test/parser.test.ts:38-39 cannot match the method regex
  (src/csharpParser.ts:77). The complex properties of
  src/test/parser.test.ts:59-82 are expected as three members, the first a
  property, but the extractor finds only `Numbers`. `Name { get => _name; … }`
  does not match `get;\s*set;` (src/csharpParser.ts:56), and the type
  `Dictionary<string, object>` holds `, `, which no type token `[\w<>[\]]+`
  accepts (src/csharpParser.ts:34, 56).
- `Parser.UnusedCSharpFacts` does not state that no method is named after
  the class. The unused copy has no constructor check, so it could not
  state that.
- Patterns.CSharpFieldAt: the contract states only that a match is well-formed, not the exact language of the field regex, because regexes are modelled as recognizers.
- Patterns.CSharpPropertyAt: the contract states only that a match is well-formed, not the exact language of the auto-property regex.
- Patterns.CSharpMethodAt: the contract states only that a match is well-formed, not the exact language of the method regex.
- Patterns.CSharpNestedMethodAt: the contract states only that a match is well-formed, not the exact language of the unused copy's method regex.
- Patterns.NestedBodyEnd: the contract states only that the body ends at a `}` inside the text, not that the nesting is at most one level.
- Patterns.OptionalLead: the contract states only that a TypeScript match is well-formed, not the exact language of the two TypeScript regexes.
- Patterns.TypeScriptPropertyTail: the contract states only where the match ends, not which tails it accepts.
- Patterns.TypeScriptMethodTail: the contract states only where the match ends, not which tails it accepts.
- Patterns.MatchAt: the contract states only that a match is well-formed, for every pattern.
- ClassPattern.ClassSignatureAt: the contract states only that a match ends just after a `{`, not the exact language of the class regex.
- ClassPattern.BaseThenBrace: the contract states only that the match ends just after a `{`.
- Patterns.FieldTail: the contract states only that a match of the field regex's tail is well-formed, not the exact language it accepts.
- Patterns.PropertyTail: the contract states only that a match of the auto-property regex's tail is well-formed, not the exact language it accepts.
- Patterns.MethodHead: the contract states only that a match of the method regex's type tokens and name is well-formed, not the exact language it accepts.
- Patterns.TerminatorEnd: the contract states only that a match of the TypeScript property terminator is well-formed, not the exact language it accepts.
- ClassPattern.ClassHeadAt: the contract states only that a match of `getClassName`'s regex is well-formed, not the exact language it accepts.
