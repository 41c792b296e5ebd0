# c4go type resolver, modelled in Dafny

c4go translates C to Go. Its `types` package turns the spelling of a C type, as
clang prints it (`const char *`, `int [2][3]`, `void (*)(int, float)`,
`struct tm`), into a Go type (`[]byte`, `[][]int`, `func(int , float32)()`,
`noarch.Tm`). This project models that translation as written in
`types/resolve.go`, together with the helpers that live beside it:

- `CleanCType`, the normal form of a spelling. Module `Normalize`, file `normalize.dfy`.
- The classifying predicates: `IsCInteger`, `IsCFloat`, `IsFunction`, `IsCPointer`, `IsCArray`, `IsPointer`, `IsLastArray` and `IsTypedefFunction`. Module `Classify`, file `classify.dfy`.
- `ParseFunction`, which splits a function type into its prefix, parameters and return spelling. Module `FunctionParser`, file `function_parser.dfy`.
- `ResolveType`, `resolveFunction` and `SeparateFunction`. Module `Resolve`, file `resolve.dfy`.
- `GenerateCorrectType`, `GetAmountArraySize` and `GetBaseType`. Module `Names`, file `names.dfy`.
- The parts of Go's `strings` package the resolver uses: `Replace` with no limit, `Index`, `TrimSpace`, `Contains`, `ContainsAny` and `Join`. Module `GoStrings`, file `go_strings.dfy`.
- The program state the resolver reads: typedefs, union typedef bases, enum typedef names, already-defined names and the `ImportType` qualifier. Module `ProgramState`, file `program_state.dfy`.

The source is mostly pure string logic. It is modelled as functions and lemmas.
Where the source loops, it has a method with a loop proved equal to the function
that specifies it:

- the table scans and typedef chains of `IsCInteger` and `IsCFloat`;
- the scans of `IsCPointer`, `IsCArray` and `IsLastArray`;
- the parenthesis scans of `ParseFunction`, including blanking the parentheses of a byte buffer in place, which is modelled as an `array<char>`;
- the resolution loops of `SeparateFunction` and `resolveFunction`;
- the `)` search of `GenerateCorrectType`;
- the recursion of `GetBaseType`.

`ResolveType` returns a `Resolution`, one of:

- `Typed(goType)`;
- `Failed(goType, reason)`, the Go type that comes back beside an error;
- `Panicked`, for the one panic reachable through it: `ParseFunction` slices `block[1:0]` for a return part such as `)(int)`.

The recursion of `ResolveType` through pointers, arrays, fields and return types
terminates because every recursive call is on a spelling with fewer `(`, `[` and
`*` characters (`Normalize.Weight`). The one exception is the enum-typedef case.
It resolves `"int"`, whose weight is 0, and that case is ordered after every
other spelling of the same weight.

The regular expressions of lines 296, 300, 332, 338 and 781 are written out as
scanners over the string:

- `FindArray` for `([\w\* ]+)((\[\d+\])+)`;
- `FunctionPointerPattern` and `FunctionLikePattern` for the two function-pointer patterns;
- `FirstDimension` for `\[(\d+)\]`.

Leftmost-match and exists-a-match lemmas tie each scanner to the pattern's
meaning.

Two places where the comments and the code disagree, both modelled as the code
does them:

- The doc comment of `ResolveType` (lines 168-171) says a failure comes with the
  placeholder `interface{}`. The function branch and the ` []` branch return an
  empty Go type with their error instead. The pointer and array branches also put
  `[]`, `*` or `[]...[]` before the inner placeholder. `Resolve.FailedShape` states
  what does come back.
- `IsCPointer`, `IsCArray` and `IsLastArray` read as if they looked only at the last
  significant character. But `break` inside a Go `switch` leaves only the `switch`.
  So the scans test whether the character occurs anywhere, and that is what their
  contracts state.

## Model

| member | source | states |
|---|---|---|
| Normalize.CleanCType | types/resolve.go:695-732 | the normal form has no tab, newline or carriage return, has no surrounding white space, has no more `(`, `[` or `*` than the input, and no character the input lacks other than a space |
| Normalize.CleanFrom | types/resolve.go:727-731 | each further round keeps those four facts, whether or not the rounds reach a fixed point |
| Normalize.CleanPassFacts | types/resolve.go:699-725 | one round of the replacements removes tabs, newlines and carriage returns, trims, adds no `(`, `[` or `*` and only adds spaces |
| Normalize.SpacingStepsKeep | types/resolve.go:699-722 | each spacing replacement (`* *`, `*`, `( *)`, `[`, `] [`, double space) adds no `(`, `[` or `*` and no new character but a space |
| Normalize.CleanCTypeOfFixedPoint | types/resolve.go:727-731 | a spelling that one round leaves unchanged is its own normal form |
| Normalize.CleanCTypeIdempotent | types/resolve.go:727-731 | normalising a settled normal form again changes nothing |
| Normalize.PlainIsClean | types/resolve.go:699-725 | a trimmed spelling of single-spaced words with no marks and no removed qualifier is its own normal form |
| Normalize.NameIsClean | types/resolve.go:699-731 | a plain type name is its own normal form |
| Normalize.NamePointerIsClean | types/resolve.go:699-702 | `x *` is its own normal form: the `*` spacing and the double-space collapse undo each other |
| Normalize.NameSpaceIsClean | types/resolve.go:722-725 | `x ` normalises to `x` |
| Normalize.NameArrayIsClean | types/resolve.go:718-722 | `x [2][3]` is its own normal form: spacing each `[` and re-joining `] [` restores it |
| Normalize.FunctionPointerIsClean | types/resolve.go:695-732 | `r (*)(a, b)`, a pointer to a function with plain return and parameter names, is its own normal form: spacing the `*` out gives `( *)`, which line 704 takes back |
| Normalize.DimensionsSpacedOut | types/resolve.go:718 | spacing the `[` of `[n1][n2]...` gives ` [n1] [n2]...` |
| Normalize.DimensionsJoined | types/resolve.go:719 | re-joining `] [` undoes that spacing after a `]` |
| GoStrings.IndexOf | types/resolve.go:617 | the index is the first occurrence of the pattern, or -1 exactly when the pattern does not occur |
| GoStrings.ContainsAny | types/resolve.go:472 | true exactly when some character of the string is in the set |
| GoStrings.ReplaceAllCount | types/resolve.go:699-722 | a replacement with fewer copies of a character than its pattern does not add that character, and removes one when the pattern occurs |
| GoStrings.TrimSpaceIdempotent | types/resolve.go:506-511 | trimming a trimmed string changes nothing |
| Classify.InTable | types/resolve.go:32-36 | the loop finds the spelling exactly when it is in the table |
| Classify.FollowTypedefs | types/resolve.go:31-41 | the loop answers whether following at most as many typedef links as there are typedefs reaches the table |
| Classify.IsCInteger | types/resolve.go:31-41 | the spelling, or a typedef it leads to, is one of the C integer types |
| Classify.IsCFloat | types/resolve.go:50-60 | the spelling, or a typedef it leads to, is one of the C floating types |
| Classify.ReachesTableIff | types/resolve.go:37-39 | reaching the table within n links holds exactly when the spelling after some k <= n links is in the table |
| Classify.ChainRepeats | types/resolve.go:37-39 | a chain of more links than there are typedefs visits some spelling twice |
| Classify.TypedefFuelSuffices | types/resolve.go:37-39 | whenever any link of the chain, however far, is in the table, the bounded search finds it, so the bound loses no answer |
| Classify.IsFunctionIff | types/resolve.go:429-432 | a spelling is a function type exactly when it has a `(` that does not start `(*)` |
| Classify.IsCPointer | types/resolve.go:435-450 | true exactly when the spelling holds a `*` |
| Classify.IsCArray | types/resolve.go:453-468 | true exactly when the spelling holds a `]` |
| Classify.IsPointer | types/resolve.go:471-473 | true exactly when the spelling holds `*`, `[` or `]` |
| Classify.IsLastArray | types/resolve.go:476-486 | true exactly when the spelling holds a `[` |
| Classify.IsTypedefFunction | types/resolve.go:489-498 | true exactly when the spelling, or the spelling without its last two characters, is a typedef of a function type |
| Classify.TypedefFunctionPointer | types/resolve.go:489-498 | a function typedef is recognised both by its name and by its name followed by ` *` |
| FunctionParser.ParseFunction | types/resolve.go:501-692 | the method with its scanning loops returns what the function `Parse` returns |
| FunctionParser.ParseFailures | types/resolve.go:516-550 | each early error happens exactly when its condition holds: no `(` outside `(*)`, no final `)`, no opening parenthesis for the parameter list |
| FunctionParser.AssembleErrors | types/resolve.go:579-691 | the analysis of the return part fails only with "no `(` in block" or "undefined situation" |
| FunctionParser.ParseShape | types/resolve.go:502-514 | a successful parse has exactly one return spelling and at least one field, and every part is trimmed |
| FunctionParser.ParseLighter | types/resolve.go:501-692 | every field and return spelling has fewer `(`, `[` and `*` than the function spelling |
| FunctionParser.ArgumentsStart | types/resolve.go:533-550 | the parameter list starts at a `(` between the second and the second-to-last character, or there is none |
| FunctionParser.LastWithExcess | types/resolve.go:535-549 | the scan stops at the last position whose suffix has the wanted depth, and no later position has it |
| FunctionParser.FindArgumentsStart | types/resolve.go:533-550 | the backward loop finds the start of the parameter list |
| FunctionParser.SplitTopLevel | types/resolve.go:559-575 | joining the pieces with `,` gives back the parameter text, no piece holds a comma outside parentheses, and every piece but the last is balanced |
| FunctionParser.ScanFieldsSplit | types/resolve.go:562-574 | the depth-counting scan cuts at exactly the top-level commas |
| FunctionParser.SplitArguments | types/resolve.go:559-575 | the loop returns the trimmed top-level pieces of the text between the outer parentheses |
| FunctionParser.TrimAllTwice | types/resolve.go:506-512 | the deferred trimming leaves trimmed pieces, and trimming again changes nothing |
| FunctionParser.FindBlockStart | types/resolve.go:591-604 | the backward loop finds the start of the last balanced group of the return part |
| FunctionParser.BlankParens | types/resolve.go:625-632 | every parenthesis becomes a space, every other character stays, and the length is kept |
| FunctionParser.BlankParensInPlace | types/resolve.go:625-632 | the buffer, updated in place, holds the blanked text of what it held before |
| FunctionParser.BlankStar | types/resolve.go:625-633 | the prefix is the blanked block with its first `*` removed |
| FunctionParser.ClassifyBlock | types/resolve.go:612-691 | the return spelling of every case has no more of any character than the text before the block and the block together |
| FunctionParser.ExamineBlock | types/resolve.go:612-691 | the method returns what the case analysis `ClassifyBlock` returns |
| FunctionParser.PointerGroup | types/resolve.go:637-654 | the return spelling gains only text from inside the block |
| FunctionParser.NestedGroup | types/resolve.go:656-673 | the return spelling gains only text from inside the block |
| FunctionParser.ParsePointerToFunction | types/resolve.go:525-528 | `r (*)(a, b)` parses to an empty prefix, the trimmed parameters and the return spelling `r` |
| FunctionParser.ParseNestedPointerToFunction | types/resolve.go:656-673 | `r (*(*)(a))(args)` parses to the prefix `*`, the trimmed parameters and the return spelling `r (a)` |
| Resolve.ResolveType | types/resolve.go:179-188 | a spelling with `:` fails with the placeholder, and so does one that normalises to nothing |
| Resolve.LookupName | types/resolve.go:205-241 | a name found in the tables or the typedefs resolves without error, a simple type to its qualified Go type, and a miss means the name is in no table |
| Resolve.PrefixedKeepsInner | types/resolve.go:283-303 | the slice, pointer and array marks go only in front: stripped of its marks the result is the inner Go type stripped of its marks, and an inner error keeps its reason |
| Resolve.StructByName | types/resolve.go:306-313 | an unknown `struct x` or `union x` resolves to `x` |
| Resolve.UnknownNameFails | types/resolve.go:324-356 | an unknown plain name fails with the placeholder, as an anonymous union when it says so and as "no Go type" otherwise |
| Resolve.PointerPeeling | types/resolve.go:278-288 | `x *` resolves to the resolution of `x` behind `[]`, or behind `*` for `FILE` |
| Resolve.FindArray | types/resolve.go:296 | a match starts where the pattern matches, its first group is the longest run of word, `*` and space characters, and its second group is every dimension after it |
| Resolve.FindArrayLeftmost | types/resolve.go:296 | no earlier position matches the array pattern |
| Resolve.EraseDigits | types/resolve.go:300-301 | the result holds no digit and no character the input lacks |
| Resolve.ErasedSizes | types/resolve.go:300-301 | the dimensions `[n1]...[nk]` with their sizes erased are k copies of `[]` |
| Resolve.ArrayErasure | types/resolve.go:290-304 | `x [n1]...[nk]` resolves to k copies of `[]` before the resolution of `x` |
| Resolve.SpaceResolvesAsName | types/resolve.go:183 | a name with a trailing space resolves as the name itself |
| Resolve.PatternsMatch | types/resolve.go:332-338 | the scanners accept exactly the spellings that contain a match of the two function-pointer patterns |
| Resolve.NoParenNoPattern | types/resolve.go:332-342 | a spelling without `(` matches neither function-pointer pattern |
| Resolve.FailedShape | types/resolve.go:168-171 | a failed resolution's Go type is the placeholder or empty, behind slice and pointer marks |
| Resolve.ResolveInTurn | types/resolve.go:403-423 | the loop resolves the spellings in order, empty fields skipped, and stops at the first error |
| Resolve.StopsAtFailure | types/resolve.go:408-421 | after an error nothing later in the list is looked at |
| Resolve.SkipIsFilter | types/resolve.go:403-406 | skipping the empty fields is resolving the non-empty ones in order |
| Resolve.ResolveEachTyped | types/resolve.go:403-423 | when the loop succeeds, each spelling resolves to the Go type at the same position |
| Resolve.ResolveEachStops | types/resolve.go:408-421 | when the loop fails, it is with the error of the first spelling that does not resolve |
| Resolve.ResolveEachOfTyped | types/resolve.go:403-423 | when each spelling resolves, the loop returns those Go types in order |
| Resolve.SeparateFunction | types/resolve.go:392-426 | the method returns what the function `SeparationOf` returns |
| Resolve.SeparationParts | types/resolve.go:392-426 | a separation means the parse succeeded with that prefix, and its fields and returns are the resolutions of the non-empty fields and the return spellings |
| Resolve.SeparationOfTyped | types/resolve.go:392-426 | when those parts resolve, the separation is made of them |
| Resolve.ListedJoin | types/resolve.go:374-386 | the loops that append each part and a separator between parts build the join with ` , ` |
| Resolve.ResolveFunction | types/resolve.go:360-389 | the method with its loops returns the Go function type the function `FunctionType` gives |
| Resolve.AppendJoined | types/resolve.go:373-386 | each of the two loops appends the parts to what has been built so far, separated by " , " and with no separator after the last part, which is `Join` of the parts |
| Resolve.RenderPointerToFunction | types/resolve.go:360-389 | `r (*)(a, b)` resolves to `func(A , B)(R)` when its parts resolve to `A`, `B` and `R` |
| Resolve.FunctionSpellingResolves | types/resolve.go:243-246 | a prepared spelling that the lookups miss and that has a `(` not starting `(*)` resolves as a function type |
| Resolve.PointerToFunctionResolves | types/resolve.go:179-246 | `r (*)(a, b)` with plain names, which the registry does not claim, resolves from the spelling as given to `func(A , B)(R)` when its parts resolve to `A`, `B` and `R` |
| Resolve.FunctionPointerExample | types/resolve.go:525-528 | with imports spelled as they are, `int (*)(int, float)` resolves to `func(int , float32)(int)` |
| Names.Underscored | types/resolve.go:757-765 | every character that cannot stand in a C name becomes `_`, every other stays, and the length is kept |
| Names.UnderscoredAppend | types/resolve.go:757-765 | the rewriting works character by character, so it distributes over concatenation |
| Names.CloseIndex | types/resolve.go:745-750 | the loop stops at the first `)` at or after the start, or at the end |
| Names.Rewritten | types/resolve.go:755-773 | the rewritten name holds no `:`, no tab, newline or carriage return, and is trimmed |
| Names.GenerateCorrectType | types/resolve.go:736-774 | the method with its loop returns what the function `CorrectType` returns |
| Names.PlainNameIsCleaned | types/resolve.go:737-739 | a name without `anonymous` is only normalised |
| Names.AnnotatedNameHasNoColon | types/resolve.go:740-773 | an annotated name comes out with no `:` and normalised |
| Names.AnnotationFound | types/resolve.go:740-744 | the annotation is found where it starts, and the first `anonymous` removed is the one inside it |
| Names.AnnotationRewritten | types/resolve.go:740-773 | `pre(anonymous body)post` becomes `pre_` + body with unacceptable characters underscored + `_post`, with `:` made `D`, normalised |
| Names.AnnotationToName | types/resolve.go:735-774 | when that text is a plain name, it is the result |
| Names.FirstDimension | types/resolve.go:781-782 | the leftmost `[digits]` is found, and no earlier position starts one |
| Names.DecimalValue | types/resolve.go:796 | reading back the decimal spelling of a number gives the number |
| Names.ArraySizeIgnoresRest | types/resolve.go:780-797 | the size is read from the leftmost `[digits]`: once a spelling has one, no text appended after it changes where the size is read or what it is |
| Names.SizeOfFirstDimension | types/resolve.go:780-797 | a size printed in decimal in the first dimension, after text without `[`, is read back as that size, whatever follows |
| Names.CharArraySizeExample | types/resolve.go:777-779 | `char [40]` has size 40 |
| Names.LastOpen | types/resolve.go:809-815 | the loop finds the last `[`, or none |
| Names.BaseType | types/resolve.go:802-824 | the base type is trimmed, does not end in `*`, holds no `(*)` and, when it ends in `]`, holds no `[`; it has no more `(`, `[` or `*` than the input |
| Names.GetBaseType | types/resolve.go:802-824 | the recursive method returns what the function `BaseType` returns |
| Names.BaseOfNamePointer | types/resolve.go:799-824 | the base type of `x *`, a pointer to a plain name `x` as clang prints it, is `x` |
| Names.BaseOfNameArray | types/resolve.go:799-824 | the base type of `x [n0][n1]...`, a fixed-size array of a plain name `x` such as the `struct BS…E [7]` of line 801, is `x`, one dimension at a time |
| Names.BaseTypeOfBase | types/resolve.go:805-823 | a spelling that already has that shape and is normalised is its own base type |
| Names.BaseTypeIdempotent | types/resolve.go:802-824 | taking the base type twice gives the same as once, when the base type is normalised |

## Left out

- The regular-expression engine: the five patterns are modelled by dedicated scanners, not by a general matcher.
- Error messages and their wrapping (`fmt.Errorf` at lines 173-177, 361-365, 394-398, 409-410, 418-419 and 502-505): an error is the `Reason` tag of where it arose.
- `ImportType` is a function field of the registry. Recording the import is a side effect outside this file.
- The branches at lines 254-260, 317-319, 554-557 and 784-787 cannot be reached.
  - Lines 254-260: line 228 already returned for every typedef.
  - Lines 317-319: a normalised spelling ending in `*` was taken at line 278.
  - Lines 554-557: the arguments part starts with `(`.
  - Lines 784-787: the pattern has one group.
- Unicode white space: `TrimSpace` is modelled for ASCII white space only.
- Normalize.CleanCType: the recursion runs until a round changes nothing. The model also stops after a number of rounds bounded by the length of the input (`MaxCleanPasses`). Its four facts hold however many rounds run, but the model does not prove that the fixed point is reached within that bound.
- Normalize.CleanCTypeIdempotent: proved for spellings whose last round is a fixed point, which the source's recursion guarantees on return. It is not proved for every input because of the bound above.
- Names.BaseTypeIdempotent: proved when the base type is left unchanged by one normalising round, for the same reason.
- Classify.IsCInteger: a cyclic typedef chain makes the Go recursion run without end. The model follows at most as many links as there are typedefs and answers false on a cycle. `Classify.TypedefFuelSuffices` shows the bound loses no true answer.
- Classify.IsCFloat: bounded in the same way as `IsCInteger`.
- Names.ArraySize: `strconv.Atoi` fails on a size beyond 64 bits, and the model reads any size. A spelling with no `[digits]` makes line 792 index a nil match and panic; the model requires a match instead.
- Classify.IsTypedefFunction: a spelling shorter than two characters that is not itself a typedef of a function makes the slice at line 493 go out of range, and Go panics. The model requires that case away instead of returning a panic.
- Names.GenerateCorrectType: a name whose `(anonymous` annotation has no `)` after it makes the slice at line 755 go out of range, and Go panics. The model requires the annotation to be closed (`AnonymousClosed`) instead of returning a panic.
- The panic of `ParseFunction` on a one-character block (line 639) is modelled as `Panic`. The three panics above are preconditions of the model. No other Go runtime panic is modelled.
- Spellings the resolver is given are modelled as they reach it. The transpiler code that calls it is not part of this model.
