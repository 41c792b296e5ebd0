/** `ResolveType`, `resolveFunction` and `SeparateFunction`
    (types/resolve.go:172-426): the C type spelling to Go type translation. */
module Resolve {
  import opened GoStrings
  import opened ProgramState
  import opened Normalize
  import opened Classify
  import opened FunctionParser

  /** The Go type returned next to most errors: the transpiler steps over the
      error and leaves this placeholder in the output. */
  const Placeholder: string := "interface{}"

  /** The Go type of C's `FILE`. */
  const FileType: string := "github.com/Konstantin8105/c4go/noarch.File"

  /** `simpleResolveTypes` (types/resolve.go:68-119): spellings with an exact
      Go equivalent. */
  const SimpleTypes: map<string, string> := map[
    "bool" := "bool",
    "char *" := "[]byte",
    "char" := "byte",
    "char*" := "[]byte",
    "double" := "float64",
    "float" := "float32",
    "int" := "int",
    "long double" := "float64",
    "long int" := "int32",
    "long long" := "int64",
    "long long int" := "int64",
    "long long unsigned int" := "uint64",
    "long unsigned int" := "uint32",
    "long" := "int32",
    "short" := "int16",
    "signed char" := "int8",
    "unsigned char" := "uint8",
    "unsigned int" := "uint32",
    "unsigned long long" := "uint64",
    "unsigned long" := "uint32",
    "unsigned short" := "uint16",
    "unsigned short int" := "uint16",
    "void" := "",
    "_Bool" := "int",
    "void*" := "interface{}",
    "void *" := "interface{}",
    "null" := "null",
    "uint32" := "uint32",
    "uint64" := "uint64",
    "__uint16_t" := "uint16",
    "__uint32_t" := "uint32",
    "__uint64_t" := "uint64",
    "__builtin_va_list" := "int64",
    "unsigned __int128" := "uint64",
    "__int128" := "int64",
    "__mbstate_t" := "int64",
    "__sbuf" := "int64",
    "__sFILEX" := "interface{}",
    "FILE" := FileType
  ]

  /** `CStdStructType` (types/resolve.go:123-134): C library structures that
      have a counterpart in the transpiler's runtime. */
  const StdStructs: map<string, string> := map[
    "div_t" := "github.com/Konstantin8105/c4go/noarch.DivT",
    "ldiv_t" := "github.com/Konstantin8105/c4go/noarch.LdivT",
    "lldiv_t" := "github.com/Konstantin8105/c4go/noarch.LldivT",
    "tm" := "github.com/Konstantin8105/c4go/noarch.Tm",
    "struct tm" := "github.com/Konstantin8105/c4go/noarch.Tm",
    "time_t" := "github.com/Konstantin8105/c4go/noarch.TimeT",
    "fpos_t" := "int"
  ]

  /** Why a spelling was not resolved; the message text is not modelled. */
  datatype Reason =
    | ColonInSpelling              // line 181
    | EmptySpelling                // line 188
    | AnonymousUnion               // line 326
    | FunctionPointer              // line 332
    | FunctionLike                 // line 338
    | NoGoType                     // line 355
    | Unparsable(error: ParseError) // line 400: `ParseFunction` failed
    | InField(inner: Reason)       // line 409
    | InReturn(inner: Reason)      // line 419

  /** What `ResolveType` returns: a Go type without error, a Go type with an
      error, or a panic raised by `ParseFunction` on a nested function type. */
  datatype Resolution = Typed(goType: string) | Failed(goType: string, reason: Reason) | Panicked

  /** `SeparateFunction`'s results: the prefix and the resolved fields and
      returns, or the first error, or a panic. */
  datatype Separation =
    | Separated(prefix: string, fields: seq<string>, returnTypes: seq<string>)
    | SeparationFailed(reason: Reason)
    | SeparationPanicked

  /** The resolution of a list of spellings in order, stopping at the first
      failure. */
  datatype Resolutions = AllTyped(goTypes: seq<string>) | FirstFailure(reason: Reason) | SomePanicked

  // ---------------------------------------------------------------------------
  // Preparing the spelling (lines 180-203)

  /** Lines 193-196. */
  function WithoutLocaleData(s: string): string {
    if Contains(s, "__locale_data") then
      ReplaceAll(ReplaceAll(s, "struct __locale_data", "int"), "__locale_data", "int")
    else s
  }

  /** Lines 200-202. */
  function WithoutSFilex(s: string): string {
    if Contains(s, "__sFILEX") then ReplaceAll(s, "__sFILEX", "int") else s
  }

  /** Replacing by `int` adds no '(', '[' or '*'. */
  lemma PreparationLighter(c: string)
    ensures Weight(WithoutLocaleData(c)) <= Weight(c)
    ensures Weight(WithoutSFilex(WithoutLocaleData(c))) <= Weight(c)
  {
    if Contains(c, "__locale_data") {
      var a := ReplaceAll(c, "struct __locale_data", "int");
      ReplacementByIntLighter(c, "struct __locale_data");
      ReplacementByIntLighter(a, "__locale_data");
    }
    ReplacementByIntLighter(WithoutLocaleData(c), "__sFILEX");
  }

  lemma ReplacementByIntLighter(c: string, pat: string)
    requires pat != [] && '(' !in pat && '[' !in pat && '*' !in pat
    ensures Weight(ReplaceAll(c, pat, "int")) <= Weight(c)
  {
    ReplaceAllCount(c, pat, "int", '(');
    ReplaceAllCount(c, pat, "int", '[');
    ReplaceAllCount(c, pat, "int", '*');
  }

  /** `"int"` reaches the table unchanged (the enum case of line 251 relies on
      it). */
  lemma IntIsPrepared()
    ensures CleanCType("int") == "int"
    ensures WithoutSFilex(WithoutLocaleData("int")) == "int"
  {
    MissingChar("int", "const", 0);
    MissingChar("int", "volatile", 0);
    MissingChar("int", "__restrict", 0);
    MissingChar("int", "restrict", 0);
    MissingChar("int", "_Nullable", 0);
    MissingChar("int", "  ", 0);
    MissingChar("int", "__locale_data", 0);
    MissingChar("int", "__sFILEX", 0);
    PlainIsClean("int");
  }

  // ---------------------------------------------------------------------------
  // The fixed-array pattern of line 296, `([\w\* ]+)((\[\d+\])+)`, on the
  // spelling without parentheses

  /** The characters of the first group: `\w` (ASCII letters, digits, `_`),
      `*` and space. */
  predicate InElementClass(c: char) {
    'a' <= c <= 'z' || 'A' <= c <= 'Z' || '0' <= c <= '9' || c == '_' || c == '*' || c == ' '
  }

  predicate IsDigit(c: char) {
    '0' <= c <= '9'
  }

  /** The end of the run of element characters starting at `i`. */
  function RunEnd(t: string, i: nat): (e: nat)
    requires i <= |t|
    ensures i <= e <= |t|
    ensures forall k :: i <= k < e ==> InElementClass(t[k])
    ensures e < |t| ==> !InElementClass(t[e])
    decreases |t| - i
  {
    if i < |t| && InElementClass(t[i]) then RunEnd(t, i + 1) else i
  }

  /** The end of the run of digits starting at `i`. */
  function DigitsEnd(t: string, i: nat): (e: nat)
    requires i <= |t|
    ensures i <= e <= |t|
    ensures forall k :: i <= k < e ==> IsDigit(t[k])
    ensures e < |t| ==> !IsDigit(t[e])
    decreases |t| - i
  {
    if i < |t| && IsDigit(t[i]) then DigitsEnd(t, i + 1) else i
  }

  /** The end of one `[digits]` starting at `i`, or `i` when there is none. */
  function DimensionEnd(t: string, i: nat): (e: nat)
    requires i <= |t|
    ensures e == i || (i + 3 <= e <= |t| && t[i] == '[' && t[e - 1] == ']')
    ensures e != i ==> e - 1 == DigitsEnd(t, i + 1)
  {
    if i < |t| && t[i] == '[' then
      var d := DigitsEnd(t, i + 1);
      if d > i + 1 && d < |t| && t[d] == ']' then d + 1 else i
    else i
  }

  /** The end of as many `[digits]` as follow `i`: the greedy second group. */
  function DimensionsEnd(t: string, i: nat): (e: nat)
    requires i <= |t|
    ensures i <= e <= |t|
    decreases |t| - i
  {
    var d := DimensionEnd(t, i);
    if d == i then i else DimensionsEnd(t, d)
  }

  /** The pattern matches starting at `i`. The first group cannot stop
      before the end of its run, since what follows it must be a `[`. */
  predicate MatchesAt(t: string, i: nat) {
    i < |t| && InElementClass(t[i]) && DimensionEnd(t, RunEnd(t, i)) > RunEnd(t, i)
  }

  /** A match: the first group is `t[start..split]`, the second
      `t[split..end]`. */
  datatype ArrayMatch = ArrayMatch(start: nat, split: nat, end: nat)

  /** The leftmost match at or after `i`, as `FindStringSubmatch` reports it. */
  function FindArray(t: string, i: nat): (m: Option<ArrayMatch>)
    requires i <= |t|
    ensures m.Some? ==> i <= m.value.start < m.value.split < m.value.end <= |t|
    ensures m.Some? ==> MatchesAt(t, m.value.start) && m.value.split == RunEnd(t, m.value.start)
    ensures m.Some? ==> m.value.end == DimensionsEnd(t, m.value.split)
    decreases |t| - i
  {
    if i == |t| then None
    else if !InElementClass(t[i]) then FindArray(t, i + 1)
    else
      var e := RunEnd(t, i);
      if DimensionEnd(t, e) > e then Some(ArrayMatch(i, e, DimensionsEnd(t, e)))
      else FindArray(t, e)
  }

  /** Every position inside a run ends at the same place. */
  lemma {:induction false} RunEndInside(t: string, i: nat, j: nat)
    requires i <= |t| && i <= j <= RunEnd(t, i)
    ensures RunEnd(t, j) == RunEnd(t, i)
    decreases j - i
  {
    if i < j {
      RunEndInside(t, i + 1, j);
    }
  }

  /** The match found is the leftmost one, and none is missed. */
  lemma {:induction false} FindArrayLeftmost(t: string, i: nat)
    requires i <= |t|
    ensures FindArray(t, i).Some? ==> forall j :: i <= j < FindArray(t, i).value.start ==> !MatchesAt(t, j)
    ensures FindArray(t, i).None? ==> forall j :: i <= j < |t| ==> !MatchesAt(t, j)
    decreases |t| - i
  {
    if i == |t| {
    } else if !InElementClass(t[i]) {
      FindArrayLeftmost(t, i + 1);
    } else {
      var e := RunEnd(t, i);
      if DimensionEnd(t, e) <= e {
        FindArrayLeftmost(t, e);
        forall j | i <= j < e ensures !MatchesAt(t, j) {
          RunEndInside(t, i, j);
        }
      }
    }
  }

  /** `[0-9]+` replaced by nothing (line 300). */
  function EraseDigits(g: string): (r: string)
    ensures forall c :: c in r ==> c in g && !IsDigit(c)
  {
    if g == [] then []
    else if IsDigit(g[0]) then EraseDigits(g[1..])
    else [g[0]] + EraseDigits(g[1..])
  }

  /** Parentheses deleted (lines 294-295). */
  function WithoutParens(s: string): string {
    ReplaceAll(ReplaceAll(s, "(", ""), ")", "")
  }

  /** The element type of an array is lighter than the array: it lost at
      least one `[` and gained no `*`. */
  lemma ArrayLighter(s: string, m: ArrayMatch)
    requires m.start < m.split < m.end <= |WithoutParens(s)|
    requires MatchesAt(WithoutParens(s), m.start) && m.split == RunEnd(WithoutParens(s), m.start)
    ensures Weight(WithoutParens(s)[m.start..m.split]) < Weight(s)
  {
    var st := WithoutParens(s);
    var a := ReplaceAll(s, "(", "");
    var g := st[m.start..m.split];
    assert forall k :: 0 <= k < |g| ==> InElementClass(g[k]);
    CountAbsent(g, '(');
    CountAbsent(g, '[');
    CountSlice(st, m.start, m.split, '*');
    ReplaceAllCount(s, "(", "", '*');
    ReplaceAllCount(a, ")", "", '*');
    assert st[m.split] == '[';
    CountAbsent(st, '[');
    ReplaceAllCount(s, "(", "", '[');
    ReplaceAllCount(a, ")", "", '[');
  }

  /** Dropping the last `*` makes a spelling lighter. */
  lemma PointerLighter(s: string)
    requires HasSuffix(s, "*")
    ensures Weight(TrimSpace(s[..|s| - 1])) < Weight(s)
  {
    var body := s[..|s| - 1];
    assert s[|s| - 1..] == "*";
    CountSlice(s, |s| - 1, |s|, '*');
    CountSlice(s, 0, |s| - 1, '(');
    CountSlice(s, 0, |s| - 1, '[');
    CountTrimSpace(body, '(');
    CountTrimSpace(body, '[');
    CountTrimSpace(body, '*');
  }

  /** Dropping a trailing ` []` makes a spelling lighter. */
  lemma OpenArrayLighter(s: string)
    requires HasSuffix(s, " []")
    ensures Weight(s[..|s| - 3]) < Weight(s)
  {
    assert s[|s| - 3..] == " []";
    CountSlice(s, |s| - 3, |s|, '[');
    CountSlice(s, 0, |s| - 3, '(');
    CountSlice(s, 0, |s| - 3, '*');
  }

  // ---------------------------------------------------------------------------
  // The patterns of lines 332 and 338. The spelling never holds a line feed
  // here, so `.` matches any character.

  /** `\w` or space. */
  predicate IsWordOrSpace(c: char) {
    'a' <= c <= 'z' || 'A' <= c <= 'Z' || '0' <= c <= '9' || c == '_' || c == ' '
  }

  /** A `)` at `r` or after it. */
  function CloseFrom(s: string, r: nat): bool
    decreases |s| - r
  {
    r < |s| && (s[r] == ')' || CloseFrom(s, r + 1))
  }

  /** `)(` at `q` or after it, followed later by `)`. */
  function CallFrom(s: string, q: nat): bool
    decreases |s| - q
  {
    q + 1 < |s| && ((s[q] == ')' && s[q + 1] == '(' && CloseFrom(s, q + 2)) || CallFrom(s, q + 1))
  }

  /** The scan for `[\w ]+\(\*.*?\)\(.*\)` (line 332) from `p` on: a word
      character or space, then `(*`, later `)(`, later `)`. */
  function PointerGroupFrom(s: string, p: nat): bool
    requires p >= 1
    decreases |s| - p
  {
    p + 1 < |s|
    && ((IsWordOrSpace(s[p - 1]) && s[p] == '(' && s[p + 1] == '*' && CallFrom(s, p + 2))
        || PointerGroupFrom(s, p + 1))
  }

  /** The scan for `[\w ]+ \(.*\)` (line 338) from `p` on: a word character or
      space, then ` (`, later `)`. */
  function SpacedGroupFrom(s: string, p: nat): bool
    requires p >= 1
    decreases |s| - p
  {
    p + 1 < |s|
    && ((IsWordOrSpace(s[p - 1]) && s[p] == ' ' && s[p + 1] == '(' && CloseFrom(s, p + 2))
        || SpacedGroupFrom(s, p + 1))
  }

  /** `MatchString` of the pattern of line 332. */
  predicate FunctionPointerPattern(s: string) {
    PointerGroupFrom(s, 1)
  }

  /** `MatchString` of the pattern of line 338. */
  predicate FunctionLikePattern(s: string) {
    SpacedGroupFrom(s, 1)
  }

  /** `)(` at `q` and `)` at `r`. */
  predicate CallAt(s: string, q: int, r: int) {
    0 <= q && q + 2 <= r < |s| && s[q] == ')' && s[q + 1] == '(' && s[r] == ')'
  }

  /** The pattern of line 332 matches with `(*` at `p`, `)(` at `q` and the
      final `)` at `r`. */
  predicate PointerPatternAt(s: string, p: int, q: int, r: int) {
    1 <= p && p + 2 <= q && p + 1 < |s| && IsWordOrSpace(s[p - 1]) && s[p] == '(' && s[p + 1] == '*'
    && CallAt(s, q, r)
  }

  /** The pattern of line 338 matches with ` (` at `p` and the final `)` at
      `r`. */
  predicate SpacedPatternAt(s: string, p: int, r: int) {
    1 <= p && p + 2 <= r < |s| && IsWordOrSpace(s[p - 1]) && s[p] == ' ' && s[p + 1] == '(' && s[r] == ')'
  }

  lemma {:induction false} CloseFromIff(s: string, r0: nat)
    ensures CloseFrom(s, r0) <==> exists k :: r0 <= k < |s| && s[k] == ')'
    decreases |s| - r0
  {
    if r0 < |s| {
      CloseFromIff(s, r0 + 1);
    }
  }

  lemma {:induction false} CallFromIff(s: string, q0: nat)
    ensures CallFrom(s, q0) <==> exists q, r :: q0 <= q && CallAt(s, q, r)
    decreases |s| - q0
  {
    if q0 + 1 < |s| {
      CallFromIff(s, q0 + 1);
      CloseFromIff(s, q0 + 2);
      if s[q0] == ')' && s[q0 + 1] == '(' && CloseFrom(s, q0 + 2) {
        var r :| q0 + 2 <= r < |s| && s[r] == ')';
        assert CallAt(s, q0, r);
      }
      if exists q, r :: q0 <= q && CallAt(s, q, r) {
        var q, r :| q0 <= q && CallAt(s, q, r);
        if q == q0 {
          assert CloseFrom(s, q0 + 2);
        } else {
          assert CallFrom(s, q0 + 1);
        }
      }
    }
  }

  /** The scan decides the pattern of line 332. */
  lemma {:induction false} PointerGroupFromIff(s: string, p0: nat)
    requires p0 >= 1
    ensures PointerGroupFrom(s, p0) <==> exists p, q, r :: p0 <= p && PointerPatternAt(s, p, q, r)
    decreases |s| - p0
  {
    if p0 + 1 < |s| {
      PointerGroupFromIff(s, p0 + 1);
      CallFromIff(s, p0 + 2);
      if IsWordOrSpace(s[p0 - 1]) && s[p0] == '(' && s[p0 + 1] == '*' && CallFrom(s, p0 + 2) {
        var q, r :| p0 + 2 <= q && CallAt(s, q, r);
        assert PointerPatternAt(s, p0, q, r);
      }
      if exists p, q, r :: p0 <= p && PointerPatternAt(s, p, q, r) {
        var p, q, r :| p0 <= p && PointerPatternAt(s, p, q, r);
        if p == p0 {
          assert CallFrom(s, p0 + 2);
        } else {
          assert PointerGroupFrom(s, p0 + 1);
        }
      }
    }
  }

  /** The scan decides the pattern of line 338. */
  lemma {:induction false} SpacedGroupFromIff(s: string, p0: nat)
    requires p0 >= 1
    ensures SpacedGroupFrom(s, p0) <==> exists p, r :: p0 <= p && SpacedPatternAt(s, p, r)
    decreases |s| - p0
  {
    if p0 + 1 < |s| {
      SpacedGroupFromIff(s, p0 + 1);
      CloseFromIff(s, p0 + 2);
      if IsWordOrSpace(s[p0 - 1]) && s[p0] == ' ' && s[p0 + 1] == '(' && CloseFrom(s, p0 + 2) {
        var r :| p0 + 2 <= r < |s| && s[r] == ')';
        assert SpacedPatternAt(s, p0, r);
      }
      if exists p, r :: p0 <= p && SpacedPatternAt(s, p, r) {
        var p, r :| p0 <= p && SpacedPatternAt(s, p, r);
        if p == p0 {
          assert CloseFrom(s, p0 + 2);
        } else {
          assert SpacedGroupFrom(s, p0 + 1);
        }
      }
    }
  }

  /** What the two patterns match, stated without the scan. */
  lemma PatternsMatch(s: string)
    ensures FunctionPointerPattern(s) <==> exists p, q, r :: PointerPatternAt(s, p, q, r)
    ensures FunctionLikePattern(s) <==> exists p, r :: SpacedPatternAt(s, p, r)
  {
    PointerGroupFromIff(s, 1);
    SpacedGroupFromIff(s, 1);
  }

  // ---------------------------------------------------------------------------
  // Resolution

  /** The name lookups of lines 206-241, which never fail; `None` when none
      applies. */
  function LookupName(reg: Registry, s: string): (r: Option<Resolution>)
    ensures r.Some? ==> r.value.Typed?
    ensures s in SimpleTypes ==> r == Some(Typed(reg.importType(SimpleTypes[s])))
    ensures r.None? ==> s !in SimpleTypes && s !in reg.typedefs && s !in StdStructs
  {
    if s in SimpleTypes then Some(Typed(reg.importType(SimpleTypes[s])))
    else if s in reg.typedefBases && HasPrefix(reg.typedefBases[s], "union ") then
      Some(Typed(reg.typedefBases[s][6..]))
    else if |s| > 2 && s[..|s| - 2] in reg.typedefs && IsFunction(reg.typedefs[s[..|s| - 2]]) then
      Some(Typed(s[..|s| - 2]))
    else if s in reg.typedefs then
      Some(Typed(if s in StdStructs then reg.importType(StdStructs[s]) else s))
    else if s in StdStructs then Some(Typed(reg.importType(StdStructs[s])))
    else None
  }

  /** Lines 264-272: the `struct `, `union ` and `class ` prefixes removed in
      that order. */
  function WithoutTags(s: string): string {
    var s := if HasPrefix(s, "struct ") then s[7..] else s;
    var s := if HasPrefix(s, "union ") then s[6..] else s;
    if HasPrefix(s, "class ") then s[6..] else s
  }

  /** A resolution behind an indirection prefix; an error keeps its reason. */
  function Prefixed(prefix: string, t: Resolution): (r: Resolution)
    ensures t.Typed? ==> r == Typed(prefix + t.goType)
    ensures t.Failed? ==> r == Failed(prefix + t.goType, t.reason)
    ensures t.Panicked? ==> r.Panicked?
  {
    match t
    case Typed(g) => Typed(prefix + g)
    case Failed(g, e) => Failed(prefix + g, e)
    case Panicked => Panicked
  }

  /** Lines 283-287: a Go slice, or a Go pointer for `FILE`. */
  function PointerTo(t: Resolution): (r: Resolution)
  {
    match t
    case Panicked => Panicked
    case _ => Prefixed(if Contains(t.goType, "noarch.File") then "*" else "[]", t)
  }

  /** 0 for `"int"`, the target of the enum case, 1 otherwise: the second
      component of the termination measure. */
  function Tag(s: string): nat {
    if s == "int" then 0 else 1
  }

  /** `ResolveType`. */
  function ResolveType(reg: Registry, s0: string): (r: Resolution)
    ensures Contains(s0, ":") ==> r == Failed(Placeholder, ColonInSpelling)
    ensures !Contains(s0, ":") && CleanCType(s0) == "" ==> r == Failed(Placeholder, EmptySpelling)
    decreases Weight(s0), Tag(s0), 3, 0
  {
    if Contains(s0, ":") then Failed(Placeholder, ColonInSpelling)
    else
      var c := CleanCType(s0);
      if c == "" then Failed(Placeholder, EmptySpelling)
      else
        var s := WithoutLocaleData(c);
        if Contains(s, "__locale_struct") then Typed("int")
        else
          var s := WithoutSFilex(s);
          PreparationLighter(c);
          IntIsPrepared();
          Dispatch(reg, s)
  }

  /** Lines 206-288, on the prepared spelling. */
  function Dispatch(reg: Registry, s: string): (r: Resolution)
    decreases Weight(s), Tag(s), 2, 0
  {
    match LookupName(reg, s)
    case Some(r) => r
    case None =>
      if IsFunction(s) then FunctionType(reg, s)
      else if s in reg.enumTypedefs then ResolveType(reg, "int")
      else if s in reg.defined then Typed(reg.importType(WithoutTags(s)))
      else if HasSuffix(s, "*") then
        PointerLighter(s);
        PointerTo(ResolveType(reg, TrimSpace(s[..|s| - 1])))
      else ResolveByShape(reg, s)
  }

  /** Lines 293-356: the spelling is neither named nor a function nor a
      pointer. */
  function ResolveByShape(reg: Registry, s: string): (r: Resolution)
    decreases Weight(s), Tag(s), 1, 0
  {
    var st := WithoutParens(s);
    match FindArray(st, 0)
    case Some(m) =>
      ArrayLighter(s, m);
      Prefixed(EraseDigits(st[m.split..m.end]), ResolveType(reg, st[m.start..m.split]))
    case None =>
      if HasPrefix(s, "struct ") || HasPrefix(s, "union ") then
        Typed(s[(if s[0] == 's' then 7 else 6)..])
      else if HasPrefix(s, "enum ") then Typed(s[5..])
      else if Contains(s, "anonymous union") then Failed(Placeholder, AnonymousUnion)
      else if FunctionPointerPattern(s) then Failed(Placeholder, FunctionPointer)
      else if FunctionLikePattern(s) then Failed(Placeholder, FunctionLike)
      else if HasSuffix(s, " []") then
        OpenArrayLighter(s);
        match ResolveType(reg, s[..|s| - 3])
        case Typed(g) => Typed("[]" + g)
        case Failed(_, e) => Failed("", e)
        case Panicked => Panicked
      else Failed(Placeholder, NoGoType)
  }

  /** `resolveFunction` (lines 360-389): an error leaves the Go type empty. */
  function FunctionType(reg: Registry, s: string): (r: Resolution)
    decreases Weight(s), 0, 1, 1
  {
    match SeparationOf(reg, s)
    case Separated(prefix, fields, returnTypes) => Typed(RenderFunction(prefix, fields, returnTypes))
    case SeparationFailed(e) => Failed("", e)
    case SeparationPanicked => Panicked
  }

  /** The Go function type: `*` of the prefix become `[]`, the fields and
      returns are separated by ` , `. */
  function RenderFunction(prefix: string, fields: seq<string>, returnTypes: seq<string>): string {
    ReplaceAll(prefix, "*", "[]") + "func(" + Join(fields, " , ") + ")(" + Join(returnTypes, " , ") + ")"
  }

  /** `SeparateFunction` (lines 392-426). */
  function SeparationOf(reg: Registry, s: string): (r: Separation)
    decreases Weight(s), 0, 1, 0
  {
    match Parse(s)
    case Fail(e) => SeparationFailed(Unparsable(e))
    case Panic => SeparationPanicked
    case Ok(p) =>
      ParseLighter(s);
      match ResolveEach(reg, p.fields, Weight(s), true)
      case FirstFailure(e) => SeparationFailed(InField(e))
      case SomePanicked => SeparationPanicked
      case AllTyped(fields) =>
        match ResolveEach(reg, p.returnTypes, Weight(s), false)
        case FirstFailure(e) => SeparationFailed(InReturn(e))
        case SomePanicked => SeparationPanicked
        case AllTyped(returnTypes) => Separated(p.prefix, fields, returnTypes)
  }

  /** The loops of lines 402-422: each spelling resolved in turn (empty ones
      skipped when `skipEmpty`), stopping at the first error. Every spelling
      is lighter than `w`, the weight of the function spelling. */
  function ResolveEach(reg: Registry, xs: seq<string>, w: nat, skipEmpty: bool): (r: Resolutions)
    requires forall k :: 0 <= k < |xs| ==> Weight(xs[k]) < w
    decreases w, 0, 0, |xs|
  {
    if xs == [] then AllTyped([])
    else
      match ResolveEach(reg, xs[..|xs| - 1], w, skipEmpty)
      case AllTyped(done) =>
        var x := xs[|xs| - 1];
        if skipEmpty && x == "" then AllTyped(done) else Extend(done, ResolveType(reg, x))
      case other => other
  }

  /** One more spelling resolved after `done`. */
  function Extend(done: seq<string>, t: Resolution): (r: Resolutions)
    ensures t.Typed? <==> r.AllTyped?
  {
    match t
    case Typed(g) => AllTyped(done + [g])
    case Failed(_, e) => FirstFailure(e)
    case Panicked => SomePanicked
  }

  /** One round of the loop. */
  lemma ResolveEachNext(reg: Registry, xs: seq<string>, w: nat, skipEmpty: bool, i: nat, done: seq<string>)
    requires forall k :: 0 <= k < |xs| ==> Weight(xs[k]) < w
    requires i < |xs| && ResolveEach(reg, xs[..i], w, skipEmpty) == AllTyped(done)
    ensures ResolveEach(reg, xs[..i + 1], w, skipEmpty)
      == if skipEmpty && xs[i] == "" then AllTyped(done) else Extend(done, ResolveType(reg, xs[i]))
  {
    assert xs[..i + 1][..i] == xs[..i];
  }

  // ---------------------------------------------------------------------------
  // Resolution by name and by peeling

  /** None of the registry lookups of lines 212-272 claims `s`: it is no
      typedef, no enum typedef and not defined, no typedef of a union, and
      not two characters longer than the name of a function typedef. */
  predicate Unregistered(reg: Registry, s: string) {
    s !in reg.typedefs && s !in reg.enumTypedefs && s !in reg.defined
    && (s in reg.typedefBases ==> !HasPrefix(reg.typedefBases[s], "union "))
    && (|s| > 2 && s[..|s| - 2] in reg.typedefs ==> !IsFunction(reg.typedefs[s[..|s| - 2]]))
  }

  /** Without a `[` there is no fixed-size array to match. */
  lemma {:induction false} NoBracketNoArray(t: string, i: nat)
    requires i <= |t| && '[' !in t
    ensures FindArray(t, i).None?
    decreases |t| - i
  {
    if i < |t| {
      if InElementClass(t[i]) {
        var e := RunEnd(t, i);
        assert e < |t| ==> t[e] != '[';
        if e > i {
          NoBracketNoArray(t, e);
        }
      } else {
        NoBracketNoArray(t, i + 1);
      }
    }
  }

  /** A plain spelling the tables and the registry do not know goes to the
      shape analysis unchanged. */
  lemma PlainReachesShape(reg: Registry, s: string)
    requires NameSpelling(s) && s !in SimpleTypes && s !in StdStructs && Unregistered(reg, s)
    requires !Contains(s, "__locale_data") && !Contains(s, "__locale_struct") && !Contains(s, "__sFILEX")
    ensures ResolveType(reg, s) == ResolveByShape(reg, s)
    ensures WithoutParens(s) == s && FindArray(s, 0).None?
  {
    NameIsClean(s);
    NameChars(s);
    MissingChar(s, ":", 0);
    assert LookupName(reg, s).None?;
    ReplaceAllChars(s, "(*)", "", '(');
    assert !IsFunction(s);
    assert !HasSuffix(s, "*");
    MissingChar(s, "(", 0);
    ReplaceAllAbsent(s, "(", "");
    MissingChar(s, ")", 0);
    ReplaceAllAbsent(s, ")", "");
    NoBracketNoArray(s, 0);
  }

  /** No spelling of the table of lines 68-119 starts with `st` or `uni`. */
  lemma NoStructInTable()
    ensures forall k :: k in SimpleTypes ==> |k| < 2 || k[0] != 's' || k[1] != 't'
  {
  }

  lemma NoUnionInTable()
    ensures forall k :: k in SimpleTypes ==> |k| < 3 || k[0] != 'u' || k[1] != 'n' || k[2] != 'i'
  {
  }

  lemma TaggedNotInTable(s: string)
    requires HasPrefix(s, "struct ") || HasPrefix(s, "union ")
    ensures s !in SimpleTypes
  {
    if HasPrefix(s, "struct ") {
      assert s[..7][0] == 's' && s[..7][1] == 't';
      NoStructInTable();
    } else {
      assert s[..6][0] == 'u' && s[..6][1] == 'n' && s[..6][2] == 'i';
      NoUnionInTable();
    }
  }

  /** Lines 264-266 and 310-316: `struct X` and `union X`, when nothing else
      knows them, resolve to `X`. */
  lemma StructByName(reg: Registry, tag: string, x: string)
    requires tag == "struct " || tag == "union "
    requires NameSpelling(tag + x) && tag + x !in StdStructs && Unregistered(reg, tag + x)
    requires !Contains(tag + x, "__locale_data") && !Contains(tag + x, "__locale_struct")
    requires !Contains(tag + x, "__sFILEX")
    ensures ResolveType(reg, tag + x) == Typed(x)
  {
    var s := tag + x;
    assert s[..|tag|] == tag && s[|tag|..] == x;
    TaggedNotInTable(s);
    PlainReachesShape(reg, s);
  }

  /** Without a `(` neither pattern of lines 332 and 338 matches. */
  lemma NoParenNoPattern(s: string)
    requires '(' !in s
    ensures !FunctionPointerPattern(s) && !FunctionLikePattern(s)
  {
    PatternsMatch(s);
  }

  /** Lines 325-327 and 354-356: a plain name that nothing knows and that is
      not tagged fails, with the placeholder; as an anonymous union when it
      says so. */
  lemma UnknownNameFails(reg: Registry, s: string)
    requires NameSpelling(s) && s !in SimpleTypes && s !in StdStructs && Unregistered(reg, s)
    requires !Contains(s, "__locale_data") && !Contains(s, "__locale_struct") && !Contains(s, "__sFILEX")
    requires !HasPrefix(s, "struct ") && !HasPrefix(s, "union ") && !HasPrefix(s, "enum ")
    ensures Contains(s, "anonymous union") ==> ResolveType(reg, s) == Failed(Placeholder, AnonymousUnion)
    ensures !Contains(s, "anonymous union") ==> ResolveType(reg, s) == Failed(Placeholder, NoGoType)
  {
    PlainReachesShape(reg, s);
    NameChars(s);
    NoParenNoPattern(s);
    assert !HasSuffix(s, " []") by {
      assert s[|s| - 1] != ']';
    }
  }

  /** Lines 179-202 leave a spelling without `:` that is already in normal
      form and mentions none of the patched names as it is. */
  lemma PreparedUnchanged(reg: Registry, s: string)
    requires s != [] && !Contains(s, ":") && CleanCType(s) == s
    requires !Contains(s, "__locale_data") && !Contains(s, "__locale_struct") && !Contains(s, "__sFILEX")
    ensures ResolveType(reg, s) == Dispatch(reg, s)
  {
  }

  /** Lines 206-241 find nothing for a spelling that is in neither table and
      that the registry does not claim. */
  lemma LookupMisses(reg: Registry, s: string)
    requires s !in SimpleTypes && s !in StdStructs && Unregistered(reg, s)
    ensures LookupName(reg, s).None?
  {
  }

  /** Lines 278-288 on a spelling that reaches them. */
  lemma PointerDispatch(reg: Registry, s: string)
    requires LookupName(reg, s).None? && !IsFunction(s) && s !in reg.enumTypedefs && s !in reg.defined
    requires HasSuffix(s, "*")
    ensures Dispatch(reg, s) == PointerTo(ResolveType(reg, TrimSpace(s[..|s| - 1])))
  {
  }

  /** Lines 278-288: `x *`, the way clang spells a pointer to `x`, becomes
      a slice of the Go type of `x` (or a Go pointer when that is the `FILE`
      of the runtime). */
  lemma PointerPeeling(reg: Registry, x: string)
    requires NameSpelling(x) && x + " *" !in SimpleTypes && x + " *" !in StdStructs
    requires Unregistered(reg, x + " *")
    requires !Contains(x + " *", "__locale_data") && !Contains(x + " *", "__locale_struct")
    requires !Contains(x + " *", "__sFILEX")
    ensures ResolveType(reg, x + " *") == PointerTo(ResolveType(reg, x))
  {
    var s := x + " *";
    PointerReachesDispatch(reg, x);
    LookupMisses(reg, s);
    PointerNotFunction(x);
    PointerDispatch(reg, s);
    PointerBody(x);
    NameTrailingSpace(x);
  }

  lemma PointerBody(x: string)
    ensures (x + " *")[..|x + " *"| - 1] == x + " "
  {
  }

  lemma PointerReachesDispatch(reg: Registry, x: string)
    requires NameSpelling(x)
    requires !Contains(x + " *", "__locale_data") && !Contains(x + " *", "__locale_struct")
    requires !Contains(x + " *", "__sFILEX")
    ensures ResolveType(reg, x + " *") == Dispatch(reg, x + " *")
  {
    var s := x + " *";
    NameChars(x);
    NamePointerIsClean(x);
    assert ':' !in s;
    MissingChar(s, ":", 0);
    PreparedUnchanged(reg, s);
  }

  lemma PointerNotFunction(x: string)
    requires NameSpelling(x)
    ensures !IsFunction(x + " *")
  {
    NameChars(x);
    assert '(' !in x + " *";
    ReplaceAllChars(x + " *", "(*)", "", '(');
  }

  /** Lines 293-308: `x [n0][n1]...`, the way clang spells a fixed-size
      array of `x`, becomes one Go slice `[]` per dimension in front of the
      Go type of `x`; the sizes are dropped. */
  lemma ArrayErasure(reg: Registry, x: string, ns: seq<string>)
    requires NameSpelling(x) && ns != [] && forall k :: 0 <= k < |ns| ==> Digits(ns[k])
    requires Unregistered(reg, x + " " + Dimensions(ns))
    requires !Contains(x, "__locale_data") && !Contains(x, "__locale_struct") && !Contains(x, "__sFILEX")
    ensures ResolveType(reg, x + " " + Dimensions(ns)) == Prefixed(Slices(|ns|), ResolveType(reg, x))
  {
    var d := Dimensions(ns);
    var t := x + " " + d;
    ArrayReachesShape(reg, x, ns);
    ArrayFound(x, ns);
    ShapeOfArray(reg, t, ArrayMatch(0, |x| + 1, |t|));
    SplitAt(x + " ", d);
    SpaceResolvesAsName(reg, x);
    ErasedSizes(ns);
  }

  /** Lines 296-308 when the array pattern matches a spelling without
      parentheses. */
  lemma ShapeOfArray(reg: Registry, s: string, m: ArrayMatch)
    requires WithoutParens(s) == s && FindArray(s, 0) == Some(m)
    ensures ResolveByShape(reg, s) == Prefixed(EraseDigits(s[m.split..m.end]), ResolveType(reg, s[m.start..m.split]))
  {
  }

  lemma SplitAt(a: string, b: string)
    ensures (a + b)[0..|a|] == a && (a + b)[|a|..|a + b|] == b
  {
  }

  /** `[]` repeated `n` times. */
  function Slices(n: nat): (r: string)
    ensures |r| == 2 * n
  {
    if n == 0 then "" else "[]" + Slices(n - 1)
  }

  /** No spelling of either table ends in `]`. */
  lemma BracketNotInTables(s: string)
    requires s != [] && s[|s| - 1] == ']'
    ensures s !in SimpleTypes && s !in StdStructs
  {
    BracketNotSimple(s);
    BracketNotStd(s);
  }

  lemma BracketNotSimple(s: string)
    requires s != [] && s[|s| - 1] == ']'
    ensures s !in SimpleTypes
  {
  }

  lemma BracketNotStd(s: string)
    requires s != [] && s[|s| - 1] == ']'
    ensures s !in StdStructs
  {
  }

  /** The array spelling reaches the shape analysis unchanged. */
  lemma ArrayReachesShape(reg: Registry, x: string, ns: seq<string>)
    requires NameSpelling(x) && ns != [] && forall k :: 0 <= k < |ns| ==> Digits(ns[k])
    requires Unregistered(reg, x + " " + Dimensions(ns))
    requires !Contains(x, "__locale_data") && !Contains(x, "__locale_struct") && !Contains(x, "__sFILEX")
    ensures ResolveType(reg, x + " " + Dimensions(ns)) == ResolveByShape(reg, x + " " + Dimensions(ns))
    ensures WithoutParens(x + " " + Dimensions(ns)) == x + " " + Dimensions(ns)
  {
    var d := Dimensions(ns);
    var t := x + " " + d;
    ArrayNoMarks(x, d, ns);
    NameArrayIsClean(x, ns);
    BracketNotInTables(t);
    PreparedUnchanged(reg, t);
    LookupMisses(reg, t);
    ReplaceAllChars(t, "(*)", "", '(');
    ShapeDispatch(reg, t);
    MissingChar(t, "(", 0);
    ReplaceAllAbsent(t, "(", "");
    MissingChar(t, ")", 0);
    ReplaceAllAbsent(t, ")", "");
  }

  /** What `x [n0][n1]...` does not hold. */
  lemma ArrayNoMarks(x: string, d: string, ns: seq<string>)
    requires NameSpelling(x) && ns != [] && forall k :: 0 <= k < |ns| ==> Digits(ns[k])
    requires d == Dimensions(ns)
    requires !Contains(x, "__locale_data") && !Contains(x, "__locale_struct") && !Contains(x, "__sFILEX")
    ensures var t := x + " " + d;
      t != [] && t[|t| - 1] == ']' && '(' !in t && ')' !in t && !Contains(t, ":") && !HasSuffix(t, "*")
      && !Contains(t, "__locale_data") && !Contains(t, "__locale_struct") && !Contains(t, "__sFILEX")
  {
    DimensionsPlain(ns);
    ArrayTextMarks(x, d);
    LocaleNamesAbsent(x, d);
  }

  lemma ArrayTextMarks(x: string, d: string)
    requires NameSpelling(x) && BracketText(d)
    ensures var t := x + " " + d;
      t != [] && t[|t| - 1] == ']' && '(' !in t && ')' !in t && !Contains(t, ":") && !HasSuffix(t, "*")
  {
    var t := x + " " + d;
    NameChars(x);
    forall k | 0 <= k < |t| ensures t[k] != '(' && t[k] != ')' && t[k] != ':' {
      if k < |x| {
        assert t[k] == x[k] && t[k] in x;
      } else if k > |x| {
        assert t[k] == d[k - |x| - 1];
      }
    }
    assert t[|t| - 1] == d[|d| - 1];
    MissingChar(t, ":", 0);
    assert t[|t| - 1..] == "]";
  }

  /** The patched names of lines 193-202 hold no space, bracket or digit,
      so appending dimensions after a space adds none of them. */
  lemma LocaleNamesAbsent(x: string, d: string)
    requires BracketText(d)
    requires !Contains(x, "__locale_data") && !Contains(x, "__locale_struct") && !Contains(x, "__sFILEX")
    ensures var t := x + " " + d;
      !Contains(t, "__locale_data") && !Contains(t, "__locale_struct") && !Contains(t, "__sFILEX")
  {
    var c := " " + d;
    forall k | 0 <= k < |c| ensures c[k] == ' ' || c[k] == '[' || c[k] == ']' || IsDigit(c[k]) {
      if k > 0 {
        assert c[k] == d[k - 1];
      }
    }
    ContainsInPrefix(x, c, "__locale_data");
    ContainsInPrefix(x, c, "__locale_struct");
    ContainsInPrefix(x, c, "__sFILEX");
    Regrouped(x, " ", d);
  }

  /** Lines 206-288 pass a spelling that no lookup claims, that is no
      function and no pointer on to the shape analysis. */
  lemma ShapeDispatch(reg: Registry, s: string)
    requires LookupName(reg, s).None? && !IsFunction(s) && s !in reg.enumTypedefs && s !in reg.defined
    requires !HasSuffix(s, "*")
    ensures Dispatch(reg, s) == ResolveByShape(reg, s)
  {
  }

  /** The array pattern of line 296 matches all of `x [n0][n1]...`: the
      element is `x ` and the dimensions are the rest. */
  lemma ArrayFound(x: string, ns: seq<string>)
    requires NameSpelling(x) && ns != [] && forall k :: 0 <= k < |ns| ==> Digits(ns[k])
    ensures var t := x + " " + Dimensions(ns);
      FindArray(t, 0) == Some(ArrayMatch(0, |x| + 1, |t|))
  {
    var d := Dimensions(ns);
    var t := (x + " ") + d;
    NameChars(x);
    forall k | 0 <= k < |x| + 1 ensures InElementClass(t[k]) {
      if k < |x| {
        assert t[k] == x[k] && WordChar(x[k]);
      }
    }
    assert d[0] == '[';
    RunEndAt(t, 0, |x| + 1);
    assert Digits(ns[0]);
    DimensionAt(x + " ", ns[0], Dimensions(ns[1..]));
    DimensionsEndAt(x + " ", ns);
  }

  /** The run of element characters from `i` stops at `j`. */
  lemma {:induction false} RunEndAt(t: string, i: nat, j: nat)
    requires i <= j < |t| && !InElementClass(t[j])
    requires forall k :: i <= k < j ==> InElementClass(t[k])
    ensures RunEnd(t, i) == j
    decreases j - i
  {
    if i < j {
      RunEndAt(t, i + 1, j);
    }
  }

  /** The run of digits from `i` stops at `j`. */
  lemma {:induction false} DigitsEndAt(t: string, i: nat, j: nat)
    requires i <= j < |t| && !IsDigit(t[j])
    requires forall k :: i <= k < j ==> IsDigit(t[k])
    ensures DigitsEnd(t, i) == j
    decreases j - i
  {
    if i < j {
      DigitsEndAt(t, i + 1, j);
    }
  }

  /** One `[n]` after `pre`. */
  lemma DimensionAt(pre: string, n: string, rest: string)
    requires Digits(n)
    ensures DimensionEnd(pre + ("[" + (n + ("]" + rest))), |pre|) == |pre| + |n| + 2
  {
    var t := pre + ("[" + (n + ("]" + rest)));
    assert t[|pre|] == '[';
    forall k | |pre| + 1 <= k < |pre| + 1 + |n| ensures IsDigit(t[k]) {
      assert t[k] == n[k - |pre| - 1];
    }
    assert t[|pre| + 1 + |n|] == ']';
    DigitsEndAt(t, |pre| + 1, |pre| + 1 + |n|);
  }

  /** All the dimensions after `pre`: the greedy second group ends at the
      end of the spelling. */
  lemma {:induction false} DimensionsEndAt(pre: string, ns: seq<string>)
    requires forall k :: 0 <= k < |ns| ==> Digits(ns[k])
    ensures DimensionsEnd(pre + Dimensions(ns), |pre|) == |pre + Dimensions(ns)|
    decreases |ns|
  {
    if ns == [] {
      assert pre + Dimensions(ns) == pre;
    } else {
      var n, rest := ns[0], Dimensions(ns[1..]);
      assert Digits(n);
      DimensionAt(pre, n, rest);
      DimensionRegrouped(pre, n, rest);
      DimensionsEndAt(pre + ("[" + (n + "]")), ns[1..]);
    }
  }

  lemma DimensionRegrouped(pre: string, n: string, rest: string)
    ensures pre + ("[" + (n + ("]" + rest))) == pre + ("[" + (n + "]")) + rest
  {
    Regrouped(n, "]", rest);
    Regrouped("[", n + "]", rest);
    Regrouped(pre, "[" + (n + "]"), rest);
  }

  /** Line 300 on the dimensions: only the brackets stay. */
  lemma {:induction false} ErasedSizes(ns: seq<string>)
    requires forall k :: 0 <= k < |ns| ==> Digits(ns[k])
    ensures EraseDigits(Dimensions(ns)) == Slices(|ns|)
    decreases |ns|
  {
    if ns != [] {
      ErasedSizes(ns[1..]);
      assert Digits(ns[0]);
      ErasedStep(ns[0], Dimensions(ns[1..]), Slices(|ns| - 1));
    }
  }

  lemma ErasedStep(n: string, rest: string, e: string)
    requires Digits(n) && EraseDigits(rest) == e
    ensures EraseDigits("[" + (n + ("]" + rest))) == "[]" + e
  {
    ErasedBracket('[', n + ("]" + rest));
    EraseDigitsAppend(n, "]" + rest);
    ErasedDigitRun(n);
    ErasedBracket(']', rest);
    Regrouped("[", "]", e);
  }

  lemma ErasedBracket(b: char, u: string)
    requires !IsDigit(b)
    ensures EraseDigits([b] + u) == [b] + EraseDigits(u)
  {
    assert ([b] + u)[0] == b && ([b] + u)[1..] == u;
  }

  lemma {:induction false} EraseDigitsAppend(a: string, b: string)
    ensures EraseDigits(a + b) == EraseDigits(a) + EraseDigits(b)
    decreases |a|
  {
    if a == [] {
      assert a + b == b;
    } else {
      assert (a + b)[0] == a[0] && (a + b)[1..] == a[1..] + b;
      EraseDigitsAppend(a[1..], b);
    }
  }

  lemma {:induction false} ErasedDigitRun(n: string)
    requires forall k :: 0 <= k < |n| ==> IsDigit(n[k])
    ensures EraseDigits(n) == ""
    decreases |n|
  {
    if n != [] {
      ErasedDigitRun(n[1..]);
    }
  }

  /** The space clang prints between an element type and its dimensions is
      trimmed away before the lookups. */
  lemma SpaceResolvesAsName(reg: Registry, x: string)
    requires NameSpelling(x)
    ensures ResolveType(reg, x + " ") == ResolveType(reg, x)
  {
    NameChars(x);
    NameSpaceIsClean(x);
    NameIsClean(x);
    assert ':' !in x + " ";
    MissingChar(x + " ", ":", 0);
    MissingChar(x, ":", 0);
  }

  // ---------------------------------------------------------------------------
  // What a failed resolution returns

  /** `g` without its leading `[`, `]` and `*`. */
  function StripIndirection(g: string): string {
    if g != [] && (g[0] == '[' || g[0] == ']' || g[0] == '*') then StripIndirection(g[1..]) else g
  }

  predicate IndirectionOnly(p: string) {
    forall k :: 0 <= k < |p| ==> p[k] == '[' || p[k] == ']' || p[k] == '*'
  }

  /** The Go type that comes with an error: the placeholder or nothing,
      behind slice and pointer marks. */
  predicate PlaceholderShaped(g: string) {
    StripIndirection(g) == Placeholder || StripIndirection(g) == ""
  }

  lemma {:induction false} StripPrefix(p: string, g: string)
    requires IndirectionOnly(p)
    ensures StripIndirection(p + g) == StripIndirection(g)
    decreases |p|
  {
    if p != [] {
      assert (p + g)[0] == p[0];
      assert (p + g)[1..] == p[1..] + g;
      assert IndirectionOnly(p[1..]) by {
        forall k | 0 <= k < |p| - 1 ensures p[1..][k] == p[k + 1] {}
      }
      StripPrefix(p[1..], g);
    } else {
      assert p + g == g;
    }
  }

  /** Lines 283-303 only put slice, pointer and array marks in front of the
      inner Go type: without its marks the result is the inner type without
      its marks, and the inner error, if any, is the one reported. */
  lemma PrefixedKeepsInner(p: string, t: Resolution)
    requires IndirectionOnly(p) && !t.Panicked?
    ensures !Prefixed(p, t).Panicked? && Prefixed(p, t).Typed? == t.Typed?
    ensures StripIndirection(Prefixed(p, t).goType) == StripIndirection(t.goType)
    ensures t.Failed? ==> Prefixed(p, t).reason == t.reason
  {
    StripPrefix(p, t.goType);
  }

  /** The second group of the array pattern holds brackets and digits only. */
  lemma {:induction false} DimensionsChars(t: string, i: nat)
    requires i <= |t|
    ensures forall k :: i <= k < DimensionsEnd(t, i) ==> t[k] == '[' || t[k] == ']' || IsDigit(t[k])
    decreases |t| - i
  {
    var d := DimensionEnd(t, i);
    if d != i {
      DimensionsChars(t, d);
    }
  }

  /** The dimensions with their sizes erased are brackets only. */
  lemma ErasedDimensions(t: string, m: ArrayMatch)
    requires m.split <= m.end <= |t| && m.end == DimensionsEnd(t, m.split)
    ensures IndirectionOnly(EraseDigits(t[m.split..m.end]))
  {
    DimensionsChars(t, m.split);
    var g := t[m.split..m.end];
    var r := EraseDigits(g);
    forall k | 0 <= k < |r| ensures r[k] == '[' || r[k] == ']' || r[k] == '*' {
      assert r[k] in r;
    }
  }

  /** Comment 4 of `ResolveType` (lines 168-171) says a failure comes with the
      placeholder `interface{}`. In fact the function branch and the ` []`
      branch return an empty Go type with their error, and the pointer and
      array branches put their `[]` or `*` before the inner result. So a
      failed resolution's Go type is the placeholder or empty, behind any
      number of indirection marks. */
  lemma FailedShape(reg: Registry, s0: string)
    ensures ResolveType(reg, s0).Failed? ==> PlaceholderShaped(ResolveType(reg, s0).goType)
    decreases Weight(s0), Tag(s0), 3, 0
  {
    if !Contains(s0, ":") {
      var c := CleanCType(s0);
      if c != "" {
        var s := WithoutLocaleData(c);
        if !Contains(s, "__locale_struct") {
          PreparationLighter(c);
          IntIsPrepared();
          DispatchFailedShape(reg, WithoutSFilex(s));
        }
      }
    }
  }

  lemma DispatchFailedShape(reg: Registry, s: string)
    ensures Dispatch(reg, s).Failed? ==> PlaceholderShaped(Dispatch(reg, s).goType)
    decreases Weight(s), Tag(s), 2, 0
  {
    if LookupName(reg, s).None? && !IsFunction(s) {
      if s in reg.enumTypedefs {
        FailedShape(reg, "int");
      } else if s in reg.defined {
      } else if HasSuffix(s, "*") {
        PointerDispatch(reg, s);
        PointerFailedShape(reg, s);
      } else {
        ShapeDispatch(reg, s);
        ShapeFailedShape(reg, s);
      }
    }
  }

  lemma PointerFailedShape(reg: Registry, s: string)
    requires HasSuffix(s, "*")
    ensures var t := PointerTo(ResolveType(reg, TrimSpace(s[..|s| - 1])));
      t.Failed? ==> PlaceholderShaped(t.goType)
    decreases Weight(s), Tag(s), 1, 1
  {
    PointerLighter(s);
    var x := TrimSpace(s[..|s| - 1]);
    FailedShape(reg, x);
    var t := ResolveType(reg, x);
    if t.Failed? {
      StripPrefix("[]", t.goType);
      StripPrefix("*", t.goType);
    }
  }

  lemma ShapeFailedShape(reg: Registry, s: string)
    ensures ResolveByShape(reg, s).Failed? ==> PlaceholderShaped(ResolveByShape(reg, s).goType)
    decreases Weight(s), Tag(s), 1, 0
  {
    var st := WithoutParens(s);
    match FindArray(st, 0)
    case Some(m) =>
      ArrayLighter(s, m);
      var x := st[m.start..m.split];
      FailedShape(reg, x);
      ErasedDimensions(st, m);
      var t := ResolveType(reg, x);
      var dims := EraseDigits(st[m.split..m.end]);
      assert ResolveByShape(reg, s) == Prefixed(dims, t);
      if t.Failed? {
        StripPrefix(dims, t.goType);
      }
    case None =>
      var r := ResolveByShape(reg, s);
      assert r.Failed? ==> r.goType == Placeholder || r.goType == "";
      assert StripIndirection(Placeholder) == Placeholder;
  }

  // ---------------------------------------------------------------------------
  // What resolving a list promises

  /** The spellings of `xs` that are not empty, in order. */
  function NonEmpty(xs: seq<string>): (ys: seq<string>)
    ensures forall k :: 0 <= k < |ys| ==> ys[k] != "" && ys[k] in xs
  {
    if xs == [] then []
    else
      var init := NonEmpty(xs[..|xs| - 1]);
      var last := xs[|xs| - 1];
      assert forall y :: y in xs[..|xs| - 1] ==> y in xs;
      if last == "" then init else init + [last]
  }

  /** A failure or a panic ends the loop: nothing after it is looked at. */
  lemma {:induction false} StopsAtFailure(reg: Registry, xs: seq<string>, w: nat, skipEmpty: bool, k: nat)
    requires forall i :: 0 <= i < |xs| ==> Weight(xs[i]) < w
    requires k <= |xs| && !ResolveEach(reg, xs[..k], w, skipEmpty).AllTyped?
    ensures ResolveEach(reg, xs, w, skipEmpty) == ResolveEach(reg, xs[..k], w, skipEmpty)
    decreases |xs| - k
  {
    if k < |xs| {
      var ys := xs[..k + 1];
      assert ys[..|ys| - 1] == xs[..k];
      assert ResolveEach(reg, ys, w, skipEmpty) == ResolveEach(reg, xs[..k], w, skipEmpty);
      StopsAtFailure(reg, xs, w, skipEmpty, k + 1);
    } else {
      assert xs[..k] == xs;
    }
  }

  /** Skipping empty spellings is resolving the non-empty ones. */
  lemma {:induction false} SkipIsFilter(reg: Registry, xs: seq<string>, w: nat)
    requires forall i :: 0 <= i < |xs| ==> Weight(xs[i]) < w
    ensures forall i :: 0 <= i < |NonEmpty(xs)| ==> Weight(NonEmpty(xs)[i]) < w
    ensures ResolveEach(reg, xs, w, true) == ResolveEach(reg, NonEmpty(xs), w, false)
    decreases |xs|
  {
    var ys := NonEmpty(xs);
    forall i | 0 <= i < |ys| ensures Weight(ys[i]) < w {
      var j :| 0 <= j < |xs| && xs[j] == ys[i];
    }
    if xs != [] {
      var init := xs[..|xs| - 1];
      SkipIsFilter(reg, init, w);
      var last := xs[|xs| - 1];
      if last != "" {
        assert ys[..|ys| - 1] == NonEmpty(init);
      }
    }
  }

  /** Without skipping, a complete resolution holds the resolution of each
      spelling, in order. */
  lemma {:induction false} ResolveEachTyped(reg: Registry, xs: seq<string>, w: nat)
    requires forall i :: 0 <= i < |xs| ==> Weight(xs[i]) < w
    ensures ResolveEach(reg, xs, w, false).AllTyped? ==> ResolvesTo(reg, xs, ResolveEach(reg, xs, w, false).goTypes)
    decreases |xs|
  {
    if xs != [] {
      var n := |xs| - 1;
      var init := xs[..n];
      ResolveEachTyped(reg, init, w);
      var r0 := ResolveEach(reg, init, w, false);
      if r0.AllTyped? {
        ResolveEachNext(reg, xs, w, false, n, r0.goTypes);
        assert xs[..n + 1] == xs;
        var t := ResolveType(reg, xs[n]);
        if t.Typed? {
          assert init + [xs[n]] == xs;
          ResolvesToSnoc(reg, init, xs[n], r0.goTypes, t.goType);
        }
      }
    }
  }

  /** Resolving one more spelling extends the resolutions by its own. */
  lemma ResolvesToSnoc(reg: Registry, xs: seq<string>, x: string, gs: seq<string>, g: string)
    requires ResolvesTo(reg, xs, gs) && ResolveType(reg, x) == Typed(g)
    ensures ResolvesTo(reg, xs + [x], gs + [g])
  {
    forall k | 0 <= k < |xs| + 1 ensures ResolveType(reg, (xs + [x])[k]) == Typed((gs + [g])[k]) {
      if k < |xs| {
        assert (xs + [x])[k] == xs[k];
      }
    }
  }

  /** Without skipping, an incomplete resolution reports the outcome of the
      first spelling that does not resolve. */
  lemma {:induction false} ResolveEachStops(reg: Registry, xs: seq<string>, w: nat)
    requires forall i :: 0 <= i < |xs| ==> Weight(xs[i]) < w
    ensures !ResolveEach(reg, xs, w, false).AllTyped? ==>
      exists k :: 0 <= k < |xs| && FirstUnresolved(reg, xs, k)
        && ResolveEach(reg, xs, w, false) == Extend([], ResolveType(reg, xs[k]))
    decreases |xs|
  {
    if xs != [] {
      var n := |xs| - 1;
      var init := xs[..n];
      var r0 := ResolveEach(reg, init, w, false);
      var r := ResolveEach(reg, xs, w, false);
      if r0.AllTyped? {
        ResolveEachTyped(reg, init, w);
        ResolveEachNext(reg, xs, w, false, n, r0.goTypes);
        assert xs[..n + 1] == xs;
        if !r.AllTyped? {
          forall j | 0 <= j < n ensures ResolveType(reg, xs[j]).Typed? {
            assert xs[j] == init[j];
          }
          assert FirstUnresolved(reg, xs, n);
        }
      } else {
        ResolveEachStops(reg, init, w);
        var k :| 0 <= k < |init| && FirstUnresolved(reg, init, k)
          && r0 == Extend([], ResolveType(reg, init[k]));
        assert r == r0;
        forall j | 0 <= j <= k ensures xs[j] == init[j] {
        }
        assert FirstUnresolved(reg, xs, k);
      }
    }
  }

  /** Conversely, spellings that each resolve give their Go types in order. */
  lemma {:induction false} ResolveEachOfTyped(reg: Registry, xs: seq<string>, w: nat, gs: seq<string>)
    requires forall i :: 0 <= i < |xs| ==> Weight(xs[i]) < w
    requires ResolvesTo(reg, xs, gs)
    ensures ResolveEach(reg, xs, w, false) == AllTyped(gs)
    decreases |xs|
  {
    if xs != [] {
      var n := |xs| - 1;
      ResolveEachOfTyped(reg, xs[..n], w, gs[..n]);
      ResolveEachNext(reg, xs, w, false, n, gs[..n]);
      WholePrefix(xs);
      LastSplit(gs);
    }
  }

  lemma WholePrefix(xs: seq<string>)
    ensures xs[..|xs|] == xs
  {
  }

  lemma LastSplit(gs: seq<string>)
    requires gs != []
    ensures gs[..|gs| - 1] + [gs[|gs| - 1]] == gs
  {
  }

  /** A separated function holds the parsed prefix, the Go types of the
      non-empty parameter spellings and those of the return spellings, in
      order (lines 400-425). */
  lemma SeparationParts(reg: Registry, s: string)
    requires SeparationOf(reg, s).Separated?
    ensures Parse(s).Ok?
    ensures SeparationOf(reg, s).prefix == Parse(s).value.prefix
    ensures ResolvesTo(reg, NonEmpty(Parse(s).value.fields), SeparationOf(reg, s).fields)
    ensures ResolvesTo(reg, Parse(s).value.returnTypes, SeparationOf(reg, s).returnTypes)
  {
    var p := Parse(s).value;
    ParseLighter(s);
    SkipIsFilter(reg, p.fields, Weight(s));
    ResolveEachTyped(reg, NonEmpty(p.fields), Weight(s));
    ResolveEachTyped(reg, p.returnTypes, Weight(s));
  }

  /** A parsed function whose pieces all resolve is separated into their Go
      types. */
  lemma SeparationOfTyped(reg: Registry, s: string, fs: seq<string>, rs: seq<string>)
    requires Parse(s).Ok?
    requires ResolvesTo(reg, NonEmpty(Parse(s).value.fields), fs)
    requires ResolvesTo(reg, Parse(s).value.returnTypes, rs)
    ensures SeparationOf(reg, s) == Separated(Parse(s).value.prefix, fs, rs)
  {
    var p := Parse(s).value;
    ParseLighter(s);
    SkipIsFilter(reg, p.fields, Weight(s));
    ResolveEachOfTyped(reg, NonEmpty(p.fields), Weight(s), fs);
    ResolveEachOfTyped(reg, p.returnTypes, Weight(s), rs);
  }

  /** `resolveFunction` on the shape `r (*)(args)` of the example at lines
      525-528: with the parameters resolving to `fs` and `r` to `g`, the Go
      type is `func(fs joined by " , ")(g)`, as `int (*)(int, float)` gives
      `func(int , float32)(int)`. */
  lemma RenderPointerToFunction(reg: Registry, r: string, args: string, fs: seq<string>, g: string)
    requires r != [] && Trimmed(r) && '(' !in r && ')' !in r
    requires '(' !in args && ')' !in args && !HasPrefix(args, "*")
    requires ResolvesTo(reg, NonEmpty(TrimAll(Split(args))), fs)
    requires ResolveType(reg, r) == Typed(g)
    ensures FunctionType(reg, r + " (*)(" + args + ")") == Typed("func(" + Join(fs, " , ") + ")(" + g + ")")
  {
    var s := r + " (*)(" + args + ")";
    ParsePointerToFunction(r, args);
    assert ResolvesTo(reg, [r], [g]);
    SeparationOfTyped(reg, s, fs, [g]);
    RenderWithoutPrefix(reg, s, fs, g);
  }

  /** Lines 243-246: a prepared spelling that the lookups do not claim and
      that has a `(` not starting `(*)` is resolved as a function type. */
  lemma FunctionSpellingResolves(reg: Registry, s: string)
    requires s != [] && !Contains(s, ":") && CleanCType(s) == s
    requires !Contains(s, "__locale_data") && !Contains(s, "__locale_struct") && !Contains(s, "__sFILEX")
    requires LookupName(reg, s).None? && IsFunction(s)
    ensures ResolveType(reg, s) == FunctionType(reg, s)
  {
    PreparedUnchanged(reg, s);
  }

  /** No spelling of either table ends in `)`. */
  lemma ParenNotInTables(s: string)
    requires s != [] && s[|s| - 1] == ')'
    ensures s !in SimpleTypes && s !in StdStructs
  {
    ParenNotSimple(s);
    ParenNotStd(s);
  }

  lemma ParenNotSimple(s: string)
    requires s != [] && s[|s| - 1] == ')'
    ensures s !in SimpleTypes
  {
  }

  lemma ParenNotStd(s: string)
    requires s != [] && s[|s| - 1] == ')'
    ensures s !in StdStructs
  {
  }

  /** The `(` of the parameter list does not start `(*)`. */
  lemma FunctionPointerOpens(r: string, args: string)
    requires '*' !in args
    ensures IsFunction(r + " (*)(" + args + ")")
  {
    var s := r + " (*)(" + args + ")";
    var n := |r|;
    assert s[n + 4] == '(' && s[n + 5] != '*';
    assert OpensGroup(s, n + 4);
    IsFunctionIff(s);
  }

  /** What lines 179-246 need to know of `r (*)(args)`: it is prepared, ends
      in `)`, and its second `(` opens a group. */
  lemma FunctionPointerShape(r: string, args: string)
    requires NameSpelling(r) && ParameterText(args)
    ensures var s := r + " (*)(" + args + ")";
      !Contains(s, ":") && CleanCType(s) == s && IsFunction(s) && s[|s| - 1] == ')'
    ensures r != [] && Trimmed(r) && '(' !in r && ')' !in r
    ensures '(' !in args && ')' !in args && !HasPrefix(args, "*")
  {
    FunctionPointerIsClean(r, args);
    FunctionPointerOperands(r, args);
    FunctionPointerOpens(r, args);
    FunctionPointerColonFree(r, args);
  }

  lemma FunctionPointerOperands(r: string, args: string)
    requires NameSpelling(r) && ParameterText(args)
    ensures r != [] && Trimmed(r) && '(' !in r && ')' !in r && ':' !in r
    ensures '(' !in args && ')' !in args && '*' !in args && ':' !in args && !HasPrefix(args, "*")
  {
    NameChars(r);
    ParameterChars(args);
    assert WordChar(r[0]) && WordChar(r[|r| - 1]);
    assert args != [] ==> args[..1][0] == args[0];
  }

  lemma FunctionPointerColonFree(r: string, args: string)
    requires ':' !in r && ':' !in args
    ensures !Contains(r + " (*)(" + args + ")", ":")
  {
    var s := r + " (*)(" + args + ")";
    assert ':' !in s;
    MissingChar(s, ":", 0);
  }

  /** Lines 179-246 and 515-571 on `r (*)(args)` as clang prints a pointer to
      a function, with a plain return name and plain parameter names: the
      spelling is already prepared, the lookups miss it, and it resolves to
      `func(fs joined by " , ")(g)`. */
  lemma PointerToFunctionResolves(reg: Registry, r: string, args: string, fs: seq<string>, g: string)
    requires NameSpelling(r) && ParameterText(args)
    requires Unregistered(reg, r + " (*)(" + args + ")")
    requires var s := r + " (*)(" + args + ")";
      !Contains(s, "__locale_data") && !Contains(s, "__locale_struct") && !Contains(s, "__sFILEX")
    requires ResolvesTo(reg, NonEmpty(TrimAll(Split(args))), fs)
    requires ResolveType(reg, r) == Typed(g)
    ensures ResolveType(reg, r + " (*)(" + args + ")") == Typed("func(" + Join(fs, " , ") + ")(" + g + ")")
  {
    var s := r + " (*)(" + args + ")";
    FunctionPointerShape(r, args);
    ParenNotInTables(s);
    LookupMisses(reg, s);
    FunctionSpellingResolves(reg, s);
    RenderPointerToFunction(reg, r, args, fs, g);
  }

  /** A plain name of the table of lines 68-119 resolves through it. */
  lemma SimpleNameResolves(reg: Registry, x: string)
    requires NameSpelling(x) && x in SimpleTypes
    requires !Contains(x, "__locale_data") && !Contains(x, "__locale_struct") && !Contains(x, "__sFILEX")
    ensures ResolveType(reg, x) == Typed(reg.importType(SimpleTypes[x]))
  {
    NameIsClean(x);
    NameChars(x);
    MissingChar(x, ":", 0);
    PreparedUnchanged(reg, x);
  }

  /** A spelling without `_` mentions none of the patched names. */
  lemma NoPatchedNames(s: string)
    requires '_' !in s
    ensures !Contains(s, "__locale_data") && !Contains(s, "__locale_struct") && !Contains(s, "__sFILEX")
  {
    MissingChar(s, "__locale_data", 0);
    MissingChar(s, "__locale_struct", 0);
    MissingChar(s, "__sFILEX", 0);
  }

  /** A list with one top-level comma is cut into two pieces. */
  lemma SplitTwo(a: string, k: nat)
    requires IsTopComma(a, k) && NoTopCommaBefore(a, k)
    requires NoTopCommaBefore(a[k + 1..], |a| - k - 1)
    ensures Split(a) == [a[..k], a[k + 1..]]
  {
    SplitCut(a, k);
    SplitEnd(a[k + 1..]);
  }

  lemma ResolvesPair(reg: Registry, x0: string, x1: string, g0: string, g1: string)
    requires ResolveType(reg, x0) == Typed(g0) && ResolveType(reg, x1) == Typed(g1)
    ensures ResolvesTo(reg, [x0, x1], [g0, g1])
  {
  }

  // The example of lines 525-528, `int (*)(int, float)`, one step at a time.

  lemma ExampleTopComma()
    ensures IsTopComma("int, float", 3) && NoTopCommaBefore("int, float", 3)
    ensures NoTopCommaBefore(" float", 6)
  {
    assert "int, float"[..3] == "int";
  }

  /** The parameter list is cut into `int` and `float`. */
  lemma ExampleParameters()
    ensures NonEmpty(TrimAll(Split("int, float"))) == ["int", "float"]
  {
    ExampleSplit();
    ExampleTrimmed();
    assert ["int", "float"][..1] == ["int"];
  }

  lemma ExampleSplit()
    ensures Split("int, float") == ["int", " float"]
  {
    ExampleTopComma();
    SplitTwo("int, float", 3);
    ExampleSlices();
  }

  lemma ExampleSlices()
    ensures "int, float"[..3] == "int" && "int, float"[4..] == " float"
  {
  }

  lemma ExampleTrimmed()
    ensures TrimAll(["int", " float"]) == ["int", "float"]
  {
    assert TrimSpace(" float") == "float" by {
      assert " float"[1..] == "float";
    }
    TrimSpaceOfTrimmed("int");
  }

  lemma ExampleInt()
    ensures NameSpelling("int") && '_' !in "int"
  {
  }

  lemma ExampleFloat()
    ensures NameSpelling("float") && '_' !in "float"
  {
  }

  lemma ExampleInTable()
    ensures "int" in SimpleTypes && SimpleTypes["int"] == "int"
    ensures "float" in SimpleTypes && SimpleTypes["float"] == "float32"
  {
  }

  lemma ExampleComma()
    ensures ParameterText(", ")
  {
  }

  /** `int, float` is a list of plain parameter names. */
  lemma ExampleParameterText()
    ensures ParameterText("int, float")
  {
    ExampleInt();
    ExampleFloat();
    NameIsParameter("int");
    NameIsParameter("float");
    ExampleComma();
    ParameterJoin(", ", "float");
    ParameterJoin("int", ", float");
    assert "int" + ", float" == "int, float";
  }

  /** With imports spelled as they are, `int` stays `int`. */
  lemma ExampleIntResolves(reg: Registry)
    requires forall name :: reg.importType(name) == name
    ensures ResolveType(reg, "int") == Typed("int")
  {
    ExampleInt();
    ExampleInTable();
    NoPatchedNames("int");
    SimpleNameResolves(reg, "int");
  }

  /** With imports spelled as they are, `float` becomes `float32`. */
  lemma ExampleFloatResolves(reg: Registry)
    requires forall name :: reg.importType(name) == name
    ensures ResolveType(reg, "float") == Typed("float32")
  {
    ExampleFloat();
    ExampleInTable();
    NoPatchedNames("float");
    SimpleNameResolves(reg, "float");
  }

  lemma ExampleSpelled()
    ensures "int" + " (*)(" + "int, float" + ")" == "int (*)(int, float)"
    ensures '_' !in "int (*)(int, float)"
    ensures "func(" + Join(["int", "float32"], " , ") + ")(" + "int" + ")" == "func(int , float32)(int)"
  {
    assert Join(["int", "float32"], " , ") == "int , float32";
  }

  /** The example of lines 525-528 as a whole: with imports spelled as they
      are, `int (*)(int, float)` resolves to `func(int , float32)(int)`. */
  lemma FunctionPointerExample()
    ensures ResolveType(EmptyRegistry(), "int (*)(int, float)") == Typed("func(int , float32)(int)")
  {
    var reg := EmptyRegistry();
    ExampleSpelled();
    NoPatchedNames("int (*)(int, float)");
    ExampleParameterText();
    ExampleInt();
    ExampleParameters();
    ExampleIntResolves(reg);
    ExampleFloatResolves(reg);
    ResolvesPair(reg, "int", "float", "int", "float32");
    PointerToFunctionResolves(reg, "int", "int, float", ["int", "float32"], "int");
  }

  /** A separation with an empty prefix and one return renders as
      `func(fields)(return)`. */
  lemma RenderWithoutPrefix(reg: Registry, s: string, fs: seq<string>, g: string)
    requires SeparationOf(reg, s) == Separated("", fs, [g])
    ensures FunctionType(reg, s) == Typed("func(" + Join(fs, " , ") + ")(" + g + ")")
  {
    assert FunctionType(reg, s) == Typed(RenderFunction("", fs, [g]));
    assert ReplaceAll("", "*", "[]") == "";
    assert Join([g], " , ") == g;
    assert "" + "func(" == "func(";
  }

  /** Each spelling of `xs` resolves to the Go type at the same position of
      `gs`. */
  predicate ResolvesTo(reg: Registry, xs: seq<string>, gs: seq<string>) {
    |gs| == |xs| && forall k :: 0 <= k < |xs| ==> ResolveType(reg, xs[k]) == Typed(gs[k])
  }

  /** `xs[k]` does not resolve and every spelling before it does. */
  predicate FirstUnresolved(reg: Registry, xs: seq<string>, k: nat)
    requires k < |xs|
  {
    !ResolveType(reg, xs[k]).Typed? && forall j :: 0 <= j < k ==> ResolveType(reg, xs[j]).Typed?
  }

  // ---------------------------------------------------------------------------
  // The loops of `SeparateFunction` and `resolveFunction`

  /** What the loops of lines 376-387 have built after `n` rounds: the first
      `n` elements, each but the last element of `xs` followed by `sep`. */
  function Listed(xs: seq<string>, n: nat, sep: string): string
    requires n <= |xs|
  {
    if n == 0 then "" else Listed(xs, n - 1, sep) + xs[n - 1] + (if n < |xs| then sep else "")
  }

  /** After a partial loop: the join of what was appended, followed by the
      separator when more is to come. */
  lemma {:induction false} ListedPrefix(xs: seq<string>, n: nat, sep: string)
    requires 0 < n <= |xs|
    ensures Listed(xs, n, sep) == Join(xs[..n], sep) + (if n < |xs| then sep else "")
    decreases n
  {
    if n > 1 {
      ListedPrefix(xs, n - 1, sep);
      assert xs[..n] == xs[..n - 1] + [xs[n - 1]];
      JoinSnoc(xs[..n - 1], xs[n - 1], sep);
    }
  }

  /** One round of the loops of lines 376-387. */
  lemma ListedStep(head: string, xs: seq<string>, i: nat, sep: string)
    requires i < |xs|
    ensures head + Listed(xs, i + 1, sep) == head + Listed(xs, i, sep) + xs[i] + (if i < |xs| - 1 then sep else "")
  {
    var l := Listed(xs, i, sep);
    var tail := if i < |xs| - 1 then sep else "";
    assert Listed(xs, i + 1, sep) == l + xs[i] + tail;
    assert head + (l + xs[i] + tail) == head + l + xs[i] + tail;
  }

  /** The finished loop builds exactly `strings.Join`. */
  lemma ListedJoin(xs: seq<string>, sep: string)
    ensures Listed(xs, |xs|, sep) == Join(xs, sep)
  {
    if xs != [] {
      ListedPrefix(xs, |xs|, sep);
      assert xs[..|xs|] == xs;
    }
  }

  /** `SeparateFunction`: parse, then resolve the non-empty fields and the
      returns in order, stopping at the first error. */
  method SeparateFunction(reg: Registry, s: string) returns (r: Separation)
    ensures r == SeparationOf(reg, s)
  {
    var parsed := ParseFunction(s);
    match parsed
    case Fail(e) =>
      return SeparationFailed(Unparsable(e));
    case Panic =>
      return SeparationPanicked;
    case Ok(p) =>
      ParseLighter(s);
      var fields := ResolveInTurn(reg, p.fields, Weight(s), true);
      match fields
      case FirstFailure(e) =>
        return SeparationFailed(InField(e));
      case SomePanicked =>
        return SeparationPanicked;
      case AllTyped(fieldTypes) =>
        var results := ResolveInTurn(reg, p.returnTypes, Weight(s), false);
        match results
        case FirstFailure(e) =>
          return SeparationFailed(InReturn(e));
        case SomePanicked =>
          return SeparationPanicked;
        case AllTyped(returnTypes) =>
          return Separated(p.prefix, fieldTypes, returnTypes);
  }

  /** The loops of lines 402-422: each spelling resolved in turn, empty ones
      skipped when `skipEmpty`, returning at the first error. */
  method ResolveInTurn(reg: Registry, xs: seq<string>, ghost w: nat, skipEmpty: bool) returns (r: Resolutions)
    requires forall k :: 0 <= k < |xs| ==> Weight(xs[k]) < w
    ensures r == ResolveEach(reg, xs, w, skipEmpty)
  {
    var done: seq<string> := [];
    for i := 0 to |xs|
      invariant ResolveEach(reg, xs[..i], w, skipEmpty) == AllTyped(done)
    {
      ResolveEachNext(reg, xs, w, skipEmpty, i, done);
      if skipEmpty && xs[i] == "" {
        continue;
      }
      var t := ResolveType(reg, xs[i]);
      match t
      case Typed(g) =>
        done := done + [g];
      case Failed(_, e) =>
        StopsAtFailure(reg, xs, w, skipEmpty, i + 1);
        return FirstFailure(e);
      case Panicked =>
        StopsAtFailure(reg, xs, w, skipEmpty, i + 1);
        return SomePanicked;
    }
    assert xs[..|xs|] == xs;
    return AllTyped(done);
  }

  /** `resolveFunction`: the separated parts rendered as a Go function type,
      or the empty type with the error. */
  method ResolveFunction(reg: Registry, s: string) returns (r: Resolution)
    ensures r == FunctionType(reg, s)
  {
    var separation := SeparateFunction(reg, s);
    match separation
    case SeparationFailed(e) =>
      return Failed("", e);
    case SeparationPanicked =>
      return Panicked;
    case Separated(prefix, f, rt) =>
      var goType := ReplaceAll(prefix, "*", "[]");
      goType := AppendJoined(goType + "func(", f);
      goType := AppendJoined(goType + ")(", rt);
      goType := goType + ")";
      return Typed(goType);
  }

  /** The loops of lines 376-387: `head` followed by the parts separated
      by " , ". */
  method AppendJoined(head: string, parts: seq<string>) returns (out: string)
    ensures out == head + Join(parts, " , ")
  {
    out := head;
    for i := 0 to |parts|
      invariant out == head + Listed(parts, i, " , ")
    {
      ListedStep(head, parts, i, " , ");
      out := out + parts[i];
      if i < |parts| - 1 {
        out := out + " , ";
      }
    }
    ListedJoin(parts, " , ");
  }
}
