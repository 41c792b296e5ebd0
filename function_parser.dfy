/** `ParseFunction` (types/resolve.go:501-692): splits a C function type such as
    `int (*)(int, float)` into the spelling of its return type, the spellings of
    its parameters and an indirection prefix. */
module FunctionParser {
  import opened GoStrings
  import opened Classify
  import opened Normalize

  datatype ParseError =
    | NotFunction        // line 517: `IsFunction` fails
    | NoClosingParen     // line 529: the last character is not `)`
    | NoOpeningParen     // line 535: the matching `(` would be the first character
    | NoParenInBlock     // lines 642 and 662: no `(` inside the block
    | UndefinedSituation // line 651: no `*` before that `(`

  datatype Parsed = Parsed(prefix: string, fields: seq<string>, returnTypes: seq<string>)

  /** A parse either succeeds, returns an error, or panics (Go's slice bounds
      check at line 639). */
  datatype ParseOutcome = Ok(value: Parsed) | Fail(error: ParseError) | Panic

  // ---------------------------------------------------------------------------
  // Parenthesis depth

  /** How many more `(` than `)` a piece of text has. */
  function Excess(t: string): int {
    Count(t, '(') - Count(t, ')')
  }

  function Delta(c: char): int {
    if c == '(' then 1 else if c == ')' then -1 else 0
  }

  lemma ExcessCons(t: string, i: nat, j: nat)
    requires i < j <= |t|
    ensures Excess(t[i..j]) == Delta(t[i]) + Excess(t[i + 1..j])
  {
    assert t[i..j] == [t[i]] + t[i + 1..j];
    CountAppend([t[i]], t[i + 1..j], '(');
    CountAppend([t[i]], t[i + 1..j], ')');
  }

  lemma ExcessSnoc(t: string, i: nat, j: nat)
    requires i <= j < |t|
    ensures Excess(t[i..j + 1]) == Excess(t[i..j]) + Delta(t[j])
  {
    assert t[i..j + 1] == t[i..j] + [t[j]];
    CountAppend(t[i..j], [t[j]], '(');
    CountAppend(t[i..j], [t[j]], ')');
  }

  /** The depth moves by one step at a time, so between two suffixes every
      intermediate depth is met: a discrete intermediate value theorem. */
  lemma {:induction false} ExcessBetween(t: string, j: nat, k: nat, hi: nat, e: int)
    requires j <= k <= hi <= |t|
    requires Excess(t[k..hi]) <= e <= Excess(t[j..hi]) || Excess(t[j..hi]) <= e <= Excess(t[k..hi])
    ensures exists m :: j <= m <= k && Excess(t[m..hi]) == e
    decreases k - j
  {
    if Excess(t[j..hi]) != e {
      ExcessCons(t, j, hi);
      ExcessBetween(t, j + 1, k, hi, e);
    }
  }

  /** The largest `i` with `lo <= i < c` and `Excess(t[i..hi]) == e`, or -1:
      what a backward scan with a depth counter finds. */
  function LastWithExcess(t: string, lo: nat, hi: nat, e: int, c: nat): (i: int)
    requires lo <= c <= hi <= |t|
    ensures i == -1 || (lo <= i < c && Excess(t[i..hi]) == e)
    ensures forall j :: lo <= j < c && j > i ==> Excess(t[j..hi]) != e
    decreases c
  {
    if c == lo then -1
    else if Excess(t[c - 1..hi]) == e then c - 1
    else LastWithExcess(t, lo, hi, e, c - 1)
  }

  /** The text just before the first spot found going left from `hi` where
      the depth becomes positive is an opening parenthesis. */
  lemma FirstPositiveIsOpen(t: string, i: nat, hi: nat, e: int)
    requires i < hi <= |t| && e >= 1 && Excess(t[i..hi]) == e
    requires forall j :: i < j < hi ==> Excess(t[j..hi]) != e
    ensures t[i] == '('
  {
    ExcessCons(t, i, hi);
    if t[i] != '(' {
      if i + 1 < hi {
        assert t[hi..hi] == [];
        ExcessBetween(t, i + 1, hi, hi, e);
      }
    }
  }

  // ---------------------------------------------------------------------------
  // The parameter list

  predicate IsTopComma(a: string, j: int) {
    0 <= j < |a| && a[j] == ',' && Excess(a[..j]) == 0
  }

  /** The first comma of `a` outside every parenthesis, or `|a|`. */
  function TopCommaFrom(a: string, j: nat): (k: nat)
    requires j <= |a|
    ensures j <= k <= |a|
    ensures k < |a| ==> IsTopComma(a, k)
    ensures forall m :: j <= m < k ==> !IsTopComma(a, m)
    decreases |a| - j
  {
    if j == |a| then |a|
    else if IsTopComma(a, j) then j
    else TopCommaFrom(a, j + 1)
  }

  /** The pieces of a parameter list between its top-level commas. */
  function Split(a: string): (pieces: seq<string>)
    ensures |pieces| >= 1
    decreases |a|
  {
    var k := TopCommaFrom(a, 0);
    if k == |a| then [a] else [a[..k]] + Split(a[k + 1..])
  }

  /** No field holds more of a character than the whole list. */
  lemma {:induction false} SplitCounts(a: string, k: nat, c: char)
    requires k < |Split(a)|
    ensures Count(Split(a)[k], c) <= Count(a, c)
    decreases |a|
  {
    var j := TopCommaFrom(a, 0);
    if j < |a| {
      if k == 0 {
        CountSlice(a, 0, j, c);
      } else {
        SplitCounts(a[j + 1..], k - 1, c);
        CountSlice(a, j + 1, |a|, c);
      }
    }
  }

  /** Each element trimmed, as the deferred function at lines 508-511 does. */
  function TrimAll(xs: seq<string>): (ys: seq<string>)
    ensures |ys| == |xs|
    ensures forall k :: 0 <= k < |xs| ==> ys[k] == TrimSpace(xs[k])
  {
    if xs == [] then [] else [TrimSpace(xs[0])] + TrimAll(xs[1..])
  }

  /** No comma of `a` before position `n` is at the top level. */
  predicate NoTopCommaBefore(a: string, n: int) {
    forall m :: 0 <= m < n ==> !IsTopComma(a, m)
  }

  lemma {:induction false} TopCommaFirst(a: string, j: nat, n: nat)
    requires j <= n <= |a| && NoTopCommaBefore(a, n)
    requires n == |a| || IsTopComma(a, n)
    ensures TopCommaFrom(a, j) == n
    decreases n - j
  {
    if j < n {
      assert !IsTopComma(a, j);
      TopCommaFirst(a, j + 1, n);
    }
  }

  lemma NoTopCommaExtend(a: string, n: nat)
    requires n < |a| && NoTopCommaBefore(a, n) && !IsTopComma(a, n)
    ensures NoTopCommaBefore(a, n + 1)
  {
  }

  /** The scan's step at a top-level comma: the text before it is the next
      piece. */
  lemma SplitCut(a: string, k: nat)
    requires IsTopComma(a, k) && NoTopCommaBefore(a, k)
    ensures Split(a) == [a[..k]] + Split(a[k + 1..])
  {
    TopCommaFirst(a, 0, k);
  }

  /** The scan's test at position `i`: a comma where the depth counted from
      `start` is 0 is a top-level comma of the rest of the list. */
  lemma TopCommaCheck(arguments: string, start: nat, end: nat, i: nat)
    requires start <= i < end <= |arguments|
    ensures IsTopComma(arguments[start..end], i - start) <==>
      Excess(arguments[start..i + 1]) == 0 && arguments[i] == ','
  {
    var a := arguments[start..end];
    assert a[..i - start] == arguments[start..i];
    ExcessSnoc(arguments, start, i);
  }

  /** The fields of `t[start..end]` as the scan of lines 559-575 produces
      them, when it stands at `i` with depth `depth`. */
  function ScanFields(t: string, end: nat, start: nat, i: nat, depth: int): (pieces: seq<string>)
    requires start <= i <= end <= |t|
    ensures |pieces| >= 1
    decreases end - i
  {
    if i == end then [t[start..end]]
    else
      var d := depth + Delta(t[i]);
      if d == 0 && t[i] == ',' then [t[start..i]] + ScanFields(t, end, i + 1, i + 1, 0)
      else ScanFields(t, end, start, i + 1, d)
  }

  /** The scan finds exactly the top-level commas, so it cuts the list as
      `Split` does. */
  lemma {:induction false} ScanFieldsSplit(t: string, end: nat, start: nat, i: nat, depth: int)
    requires start <= i <= end <= |t|
    requires depth == Excess(t[start..i])
    requires NoTopCommaBefore(t[start..end], i - start)
    ensures ScanFields(t, end, start, i, depth) == Split(t[start..end])
    decreases end - i
  {
    var a := t[start..end];
    if i == end {
      SplitEnd(a);
    } else {
      TopCommaCheck(t, start, end, i);
      ExcessSnoc(t, start, i);
      var d := depth + Delta(t[i]);
      if d == 0 && t[i] == ',' {
        assert ScanFields(t, end, start, i, depth) == [t[start..i]] + ScanFields(t, end, i + 1, i + 1, 0);
        SplitAtComma(t, end, start, i);
        assert t[i + 1..i + 1] == [];
        ScanFieldsSplit(t, end, i + 1, i + 1, 0);
      } else {
        assert ScanFields(t, end, start, i, depth) == ScanFields(t, end, start, i + 1, d);
        NoTopCommaExtend(a, i - start);
        ScanFieldsSplit(t, end, start, i + 1, d);
      }
    }
  }

  lemma SplitAtComma(t: string, end: nat, start: nat, i: nat)
    requires start <= i < end <= |t|
    requires IsTopComma(t[start..end], i - start) && NoTopCommaBefore(t[start..end], i - start)
    ensures Split(t[start..end]) == [t[start..i]] + Split(t[i + 1..end])
  {
    var a := t[start..end];
    SplitCut(a, i - start);
    assert a[..i - start] == t[start..i];
    assert a[i - start + 1..] == t[i + 1..end];
  }

  /** The scan's last step: what is left is the last piece. */
  lemma SplitEnd(a: string)
    requires NoTopCommaBefore(a, |a|)
    ensures Split(a) == [a]
  {
    TopCommaFirst(a, 0, |a|);
  }

  /** A piece with no comma at its own top level. */
  predicate NoTopComma(p: string) {
    forall j :: 0 <= j < |p| ==> !IsTopComma(p, j)
  }

  /** Fields are cut only at commas at parenthesis depth 0: joined back with
      commas they give the list, none of them has a top-level comma, and every
      field but the last is balanced, so the comma after it is at depth 0. */
  lemma {:induction false} SplitTopLevel(a: string)
    ensures Join(Split(a), ",") == a
    ensures forall k :: 0 <= k < |Split(a)| ==> NoTopComma(Split(a)[k])
    ensures forall k :: 0 <= k < |Split(a)| - 1 ==> Excess(Split(a)[k]) == 0
    decreases |a|
  {
    var k := TopCommaFrom(a, 0);
    if k == |a| {
    } else {
      SplitTopLevel(a[k + 1..]);
      var head := a[..k];
      var rest := Split(a[k + 1..]);
      assert ([head] + rest)[1..] == rest;
      assert a == head + "," + a[k + 1..];
      forall j | 0 <= j < |head| ensures !IsTopComma(head, j) {
        assert !IsTopComma(a, j);
        assert head[..j] == a[..j];
      }
      assert head[..k] == a[..k];
    }
  }

  // ---------------------------------------------------------------------------
  // The block before the parameter list

  /** Parentheses turned into spaces (lines 625-632 and 680-687). */
  function BlankParens(b: string): (r: string)
    ensures |r| == |b|
    ensures forall i :: 0 <= i < |b| ==> r[i] == (if b[i] == '(' || b[i] == ')' then ' ' else b[i])
  {
    if b == [] then [] else [if b[0] == '(' || b[0] == ')' then ' ' else b[0]] + BlankParens(b[1..])
  }

  /** The outcome of the analysis of a return part that ends in `)`: the prefix
      and the return spelling before the deferred trimming. */
  datatype BlockOutcome = BlockOk(prefix: string, ret: string) | BlockFail(error: ParseError) | BlockPanic

  /** The start of the last balanced group of the return part (lines 593-604); 0
      when the scan never comes back to depth 0. */
  function BlockStart(returnPart: string): (p: nat)
    ensures p < |returnPart| || p == 0
  {
    var i := LastWithExcess(returnPart, 0, |returnPart|, 0, |returnPart|);
    if i < 0 then 0 else i
  }

  /** Lines 593-691 for a return part ending in `)`: the block is the last
      balanced group, `rest` what comes before it. */
  function AnalyseBlock(returnPart: string): (r: BlockOutcome)
    requires |returnPart| > 0
    ensures r.BlockOk? ==> forall c :: Count(r.ret, c) <= Count(returnPart, c)
  {
    var position := BlockStart(returnPart);
    var block := returnPart[position..];
    var rest := returnPart[..position];
    assert returnPart == rest + block;
    forall c ensures Count(returnPart, c) == Count(rest, c) + Count(block, c) {
      CountAppend(rest, block, c);
    }
    ClassifyBlock(block, rest)
  }

  /** The cases of lines 612, 619, 637, 656 and 680. */
  function ClassifyBlock(block: string, rest: string): (r: BlockOutcome)
    requires |block| > 0
    ensures r.BlockOk? ==> forall c :: Count(r.ret, c) <= Count(rest, c) + Count(block, c)
  {
    if block == "(*)" then
      // line 612: `int (*)`
      BlockOk("", rest)
    else
      var index := IndexOf(block, "(*)");
      if index < 0 then
        if Count(block, '(') == 1 then
          // line 619: `int ( * [2])`
          BlockOk(BlankedPrefix(block), rest)
        else if |block| < 2 then
          // line 637 slices `block[1:0]`
          BlockPanic
        else
          PointerGroup(block, rest)
      else if |block| - 1 > index + 3 && block[index + 3] == '(' then
        NestedGroup(block, index, rest)
      else
        // line 680: `int ( *( *(*)))`
        BlockOk(BlankedPrefix(block), rest)
  }

  /** Parentheses blanked and the first `*` removed (lines 625-634 and
      680-688). */
  function BlankedPrefix(block: string): (prefix: string)
  {
    ReplaceFirst(BlankParens(block), "*", "")
  }

  /** Lines 635-654, `void (*(int *, void *, const char *))`: inside the
      outer parentheses, what precedes the first `(` is the prefix once its
      first `*` is dropped, and the rest joins the return spelling. */
  function PointerGroup(block: string, rest: string): (r: BlockOutcome)
    requires |block| >= 2
    ensures r.BlockOk? ==> forall c :: Count(r.ret, c) <= Count(rest, c) + Count(block, c)
  {
    var inner := block[1..|block| - 1];
    var k := IndexOf(inner, "(");
    if k < 0 then BlockFail(NoParenInBlock)
    else if Contains(inner[..k], "*") then
      forall c ensures Count(rest + inner[k..], c) <= Count(rest, c) + Count(block, c) {
        CountSlice(block, 1, |block| - 1, c);
        CountSlice(inner, k, |inner|, c);
        CountAppend(rest, inner[k..], c);
      }
      BlockOk(ReplaceFirst(inner[..k], "*", ""), rest + inner[k..])
    else BlockFail(UndefinedSituation)
  }

  /** Lines 656-674, `void ( *(*)(int *, void *, char *))`: the first `(*)`
      is dropped, then as in `PointerGroup` but the prefix keeps its `*`. */
  function NestedGroup(block: string, index: nat, rest: string): (r: BlockOutcome)
    requires index + 4 < |block|
    requires IndexOf(block, "(*)") == index
    ensures r.BlockOk? ==> forall c :: Count(r.ret, c) <= Count(rest, c) + Count(block, c)
  {
    var b := ReplaceFirst(block, "(*)", "");
    var inner := b[1..|b| - 1];
    var k := IndexOf(inner, "(");
    if k < 0 then BlockFail(NoParenInBlock)
    else
      forall c ensures Count(rest + inner[k..], c) <= Count(rest, c) + Count(block, c) {
        CountReplaceFirst(block, "(*)", "", c);
        CountSlice(b, 1, |b| - 1, c);
        CountSlice(inner, k, |inner|, c);
        CountAppend(rest, inner[k..], c);
      }
      BlockOk(inner[..k], rest + inner[k..])
  }

  /** The start of the parameter list (lines 530-550): the last `(` whose
      group closes at the final `)`, searched from index 1 on; -1 if none. */
  function ArgumentsStart(s: string): (pos: int)
    requires |s| >= 2
    ensures pos == -1 || (1 <= pos <= |s| - 2 && s[pos] == '(')
  {
    var pos := LastWithExcess(s, 1, |s| - 1, 1, |s| - 1);
    if pos >= 0 then
      FirstPositiveIsOpen(s, pos, |s| - 1, 1);
      pos
    else pos
  }

  /** The result as the deferred function at lines 502-514 leaves it. */
  function Finish(prefix: string, fields: seq<string>, ret: string): Parsed {
    Parsed(TrimSpace(prefix), TrimAll(fields), [TrimSpace(ret)])
  }

  /** `ParseFunction`. */
  function Parse(s0: string): (r: ParseOutcome)
  {
    var s := TrimSpace(s0);
    if !IsFunction(s) then Fail(NotFunction)
    else if s[|s| - 1] != ')' then Fail(NoClosingParen)
    else
      TrimSpaceTrimmed(s0);
      FunctionSpellingLength(s);
      ParseCall(s)
  }

  /** A function spelling ending in `)` has at least two characters. */
  lemma FunctionSpellingLength(s: string)
    requires IsFunction(s) && |s| > 0 && s[|s| - 1] == ')'
    ensures |s| >= 2
  {
    ReplaceAllChars(s, "(*)", "", '(');
  }

  /** Lines 530-691 for a trimmed spelling that ends in `)`. The arguments
      part `s[pos:]` starts with `(` and ends with `)`, so the `TrimSpace` of
      line 553 keeps it as it is and the error of lines 554-557 cannot occur. */
  function ParseCall(s: string): (r: ParseOutcome)
    requires |s| >= 2 && Trimmed(s)
  {
    var pos := ArgumentsStart(s);
    if pos < 0 then Fail(NoOpeningParen)
    else Assemble(TrimAll(Split(s[pos + 1..|s| - 1])), ReturnPart(s, pos))
  }

  /** The return part `TrimSpace(s[:pos])` (line 552); it is not empty because
      `s` starts with a character that is not white space. */
  function ReturnPart(s: string, pos: nat): (rp: string)
    requires Trimmed(s) && 1 <= pos < |s|
    ensures |rp| > 0 && Trimmed(rp)
    ensures forall c :: Count(rp, c) <= Count(s[..pos], c)
  {
    TrimSpaceNonEmpty(s[..pos]);
    TrimSpaceTrimmed(s[..pos]);
    forall c ensures Count(TrimSpace(s[..pos]), c) <= Count(s[..pos], c) {
      CountTrimSpace(s[..pos], c);
    }
    TrimSpace(s[..pos])
  }

  /** Lines 579-691: the return part decides the prefix and the return
      spelling. */
  function Assemble(fields: seq<string>, rp: string): (r: ParseOutcome)
    requires |rp| > 0
  {
    if rp[|rp| - 1] != ')' then Ok(Finish("", fields, rp))
    else match AnalyseBlock(rp)
      case BlockOk(prefix, ret) => Ok(Finish(prefix, fields, ret))
      case BlockFail(e) => Fail(e)
      case BlockPanic => Panic
  }

  // ---------------------------------------------------------------------------
  // What a parse promises

  /** What the deferred trimming leaves: trimmed pieces, and the fields
      trimmed once more, which changes nothing for trimmed ones. */
  lemma AssembleShape(fields: seq<string>, rp: string)
    requires |rp| > 0 && Assemble(fields, rp).Ok?
    ensures |Assemble(fields, rp).value.returnTypes| == 1
    ensures Trimmed(Assemble(fields, rp).value.returnTypes[0])
    ensures Trimmed(Assemble(fields, rp).value.prefix)
    ensures Assemble(fields, rp).value.fields == TrimAll(fields)
  {
    if rp[|rp| - 1] != ')' {
      assert Assemble(fields, rp) == Ok(Finish("", fields, rp));
      TrimSpaceTrimmed("");
      TrimSpaceTrimmed(rp);
    } else {
      var b := AnalyseBlock(rp);
      assert Assemble(fields, rp) == Ok(Finish(b.prefix, fields, b.ret));
      TrimSpaceTrimmed(b.prefix);
      TrimSpaceTrimmed(b.ret);
    }
  }

  /** Trimming trimmed pieces again keeps them. */
  lemma TrimAllTwice(xs: seq<string>)
    ensures TrimAll(TrimAll(xs)) == TrimAll(xs)
    ensures forall k :: 0 <= k < |xs| ==> Trimmed(TrimAll(xs)[k])
  {
    forall k | 0 <= k < |xs| ensures Trimmed(TrimAll(xs)[k]) && TrimAll(TrimAll(xs))[k] == TrimAll(xs)[k] {
      TrimSpaceTrimmed(xs[k]);
      TrimSpaceIdempotent(xs[k]);
    }
  }

  /** A successful parse has exactly one return spelling and at least one
      field (possibly empty, as for `()`), and the prefix, the fields and the
      return spelling are all trimmed. */
  lemma ParseShape(s0: string)
    requires Parse(s0).Ok?
    ensures |Parse(s0).value.returnTypes| == 1
    ensures |Parse(s0).value.fields| >= 1
    ensures Trimmed(Parse(s0).value.prefix)
    ensures forall k :: 0 <= k < |Parse(s0).value.fields| ==> Trimmed(Parse(s0).value.fields[k])
    ensures Trimmed(Parse(s0).value.returnTypes[0])
  {
    var s, pos := ParseOkParts(s0);
    var pieces := Split(s[pos + 1..|s| - 1]);
    AssembleShape(TrimAll(pieces), ReturnPart(s, pos));
    TrimAllTwice(pieces);
  }

  /** A successful parse found the parameter list at `pos` of the trimmed
      input. */
  lemma ParseOkParts(s0: string) returns (s: string, pos: nat)
    requires Parse(s0).Ok?
    ensures s == TrimSpace(s0) && Trimmed(s) && 1 <= pos <= |s| - 2 && s[pos] == '('
    ensures Parse(s0) == Assemble(TrimAll(Split(s[pos + 1..|s| - 1])), ReturnPart(s, pos))
  {
    s := TrimSpace(s0);
    TrimSpaceTrimmed(s0);
    assert IsFunction(s) && s[|s| - 1] == ')';
    FunctionSpellingLength(s);
    assert Parse(s0) == ParseCall(s);
    var p := ArgumentsStart(s);
    assert p >= 0;
    ParseCallUnfold(s, p);
    pos := p;
  }

  lemma ParseCallUnfold(s: string, p: nat)
    requires |s| >= 2 && Trimmed(s) && ArgumentsStart(s) == p
    ensures 1 <= p <= |s| - 2 && s[p] == '('
    ensures ParseCall(s) == Assemble(TrimAll(Split(s[p + 1..|s| - 1])), ReturnPart(s, p))
  {
  }

  /** The three errors named before the parameter list is split, each both
      ways: not a function, no closing `)` at the end, and no matching `(`
      after the first character. */
  lemma ParseFailures(s0: string)
    ensures Parse(s0) == Fail(NotFunction) <==> !IsFunction(TrimSpace(s0))
    ensures Parse(s0) == Fail(NoClosingParen) <==>
      (IsFunction(TrimSpace(s0)) && TrimSpace(s0)[|TrimSpace(s0)| - 1] != ')')
    ensures Parse(s0) == Fail(NoOpeningParen) <==>
      (IsFunction(TrimSpace(s0)) && TrimSpace(s0)[|TrimSpace(s0)| - 1] == ')' && NoArgumentsStart(TrimSpace(s0)))
  {
    var s := TrimSpace(s0);
    if IsFunction(s) && s[|s| - 1] == ')' {
      TrimSpaceTrimmed(s0);
      FunctionSpellingLength(s);
      var pos := ArgumentsStart(s);
      assert Parse(s0) == ParseCall(s);
      if pos >= 0 {
        var fields := TrimAll(Split(s[pos + 1..|s| - 1]));
        var rp := ReturnPart(s, pos);
        ParseCallUnfold(s, pos);
        assert Parse(s0) == Assemble(fields, rp);
        AssembleErrors(fields, rp);
        assert !NoArgumentsStart(s);
      } else {
        assert NoArgumentsStart(s);
      }
    }
  }

  /** No `(` after the first character closes at the final `)`. */
  predicate NoArgumentsStart(s: string)
    requires |s| >= 1
  {
    NoDepth(s, 1, |s| - 1, 1)
  }

  /** No suffix of `t[..hi]` starting at `lo` or later has depth `e`. */
  predicate NoDepth(t: string, lo: nat, hi: nat, e: int)
    requires hi <= |t|
  {
    forall i :: lo <= i < hi ==> Excess(t[i..hi]) != e
  }

  /** The block analysis fails only with its own two errors. */
  lemma AssembleErrors(fields: seq<string>, rp: string)
    requires |rp| > 0
    ensures Assemble(fields, rp).Fail? ==> Assemble(fields, rp).error in {NoParenInBlock, UndefinedSituation}
  {
  }

  // ---------------------------------------------------------------------------
  // The pointer-to-function shape of the example at lines 525-528,
  // `int (*)(int, float)`

  /** The backward scan stops at the first position, going left from `c`,
      with the depth it looks for. */
  lemma {:induction false} LastWithExcessAt(t: string, lo: nat, hi: nat, e: int, c: nat, i: nat)
    requires lo <= i < c <= hi <= |t|
    requires Excess(t[i..hi]) == e
    requires forall j :: i < j < c ==> Excess(t[j..hi]) != e
    ensures LastWithExcess(t, lo, hi, e, c) == i
    decreases c
  {
    if c - 1 != i {
      LastWithExcessAt(t, lo, hi, e, c - 1, i);
    }
  }

  /** Text without parentheses has depth 0. */
  lemma FlatExcess(t: string)
    requires '(' !in t && ')' !in t
    ensures Excess(t) == 0
  {
    CountAbsent(t, '(');
    CountAbsent(t, ')');
  }

  /** A return spelling `r` followed by `(*)` and a parameter list without
      parentheses parses with an empty prefix, the parameters split at their
      commas, and `r` as the return spelling: `int (*)(int, float)` gives
      `""`, `["int", "float"]` and `["int"]`. */
  lemma ParsePointerToFunction(r: string, args: string)
    requires r != [] && Trimmed(r) && '(' !in r && ')' !in r
    requires '(' !in args && ')' !in args && !HasPrefix(args, "*")
    ensures Parse(r + " (*)(" + args + ")") == Ok(Parsed("", TrimAll(Split(args)), [r]))
  {
    var s := r + " (*)(" + args + ")";
    var n := |r|;
    PointerToFunctionCall(r, args);
    PointerToFunctionArguments(r, args);
    PointerToFunctionReturn(r, args);
    ParseCallUnfold(s, n + 4);
    PointerToFunctionFinish(r, TrimAll(Split(args)));
    TrimAllTwice(Split(args));
  }

  lemma PointerToFunctionCall(r: string, args: string)
    requires r != [] && Trimmed(r) && !HasPrefix(args, "*")
    ensures var s := r + " (*)(" + args + ")"; |s| >= 2 && Trimmed(s) && Parse(s) == ParseCall(s)
  {
    var s := r + " (*)(" + args + ")";
    PointerToFunctionLayout(r, args);
    TrimSpaceOfTrimmed(s);
    IsFunctionIff(s);
    assert OpensGroup(s, |r| + 4);
  }

  lemma PointerToFunctionReturn(r: string, args: string)
    requires r != [] && Trimmed(r) && !HasPrefix(args, "*")
    ensures var s := r + " (*)(" + args + ")";
      |s| >= |r| + 6 && s[|r| + 5..|s| - 1] == args && Trimmed(s) && ReturnPart(s, |r| + 4) == r + " (*)"
  {
    var s := r + " (*)(" + args + ")";
    PointerToFunctionLayout(r, args);
    assert s[..|r| + 4] == r + " (*)";
    TrimSpaceOfTrimmed(r + " (*)");
  }

  lemma PointerToFunctionFinish(r: string, fields: seq<string>)
    requires r != [] && Trimmed(r) && '(' !in r && ')' !in r
    ensures Assemble(fields, r + " (*)") == Ok(Parsed("", TrimAll(fields), [r]))
  {
    PointerToFunctionBlock(r);
    TrimSpaceOfTrimmed("");
    TrimTrailingSpace(r);
  }

  lemma PointerToFunctionLayout(r: string, args: string)
    requires r != [] && Trimmed(r) && !HasPrefix(args, "*")
    ensures var s := r + " (*)(" + args + ")";
      && Trimmed(s) && |s| == |r| + |args| + 6 && s[|s| - 1] == ')'
      && s[|r| + 4] == '(' && !HasPrefix(s[|r| + 4..], "(*)")
      && s[|r| + 5..|s| - 1] == args && s[|r| + 4..|s| - 1] == "(" + args
  {
    var s := r + " (*)(" + args + ")";
    assert s[0] == r[0];
    assert s[|r| + 4..] == "(" + args + ")";
    if args != [] {
      assert s[|r| + 5] == args[0];
    }
  }

  lemma PointerToFunctionArguments(r: string, args: string)
    requires r != [] && Trimmed(r) && !HasPrefix(args, "*")
    requires '(' !in args && ')' !in args
    ensures ArgumentsStart(r + " (*)(" + args + ")") == |r| + 4
  {
    var s := r + " (*)(" + args + ")";
    var n := |r|;
    PointerToFunctionLayout(r, args);
    assert Count("(" + args, '(') == 1 + Count(args, '(') by {
      CountAppend("(", args, '(');
    }
    assert Count("(" + args, ')') == Count(args, ')') by {
      CountAppend("(", args, ')');
    }
    FlatExcess(args);
    var hi := |s| - 1;
    forall j | n + 4 < j < hi ensures Excess(s[j..hi]) != 1 {
      assert s[j..hi] == args[j - n - 5..];
      FlatExcess(args[j - n - 5..]);
    }
    LastWithExcessAt(s, 1, hi, 1, hi, n + 4);
  }

  // ---------------------------------------------------------------------------
  // The nested shape of the example at lines 656-673,
  // `void (*(*)(int *, void *, const char *))(void)`

  lemma ExcessAppend(x: string, y: string)
    ensures Excess(x + y) == Excess(x) + Excess(y)
  {
    CountAppend(x, y, '(');
    CountAppend(x, y, ')');
  }

  /** A spelling `r (*(*)(a))(args)` parses with the prefix `*`, the
      parameters `args` split at their commas, and the return spelling
      `r (a)`: the function pointer returned by the inner group. For the
      example, `*`, `["void"]` and `["void (int *, void *, const char *)"]`. */
  lemma ParseNestedPointerToFunction(r: string, a: string, args: string)
    requires r != [] && Trimmed(r) && '(' !in r && ')' !in r
    requires '(' !in a && ')' !in a && '(' !in args && ')' !in args
    ensures Parse(r + " (*(*)(" + a + "))(" + args + ")")
      == Ok(Parsed("*", TrimAll(Split(args)), [r + " (" + a + ")"]))
  {
    NestedParts(r, a, args);
    NestedFinish(r, a, TrimAll(Split(args)));
    TrimAllTwice(Split(args));
  }

  lemma NestedParts(r: string, a: string, args: string)
    requires r != [] && Trimmed(r) && '(' !in args && ')' !in args
    ensures Parse(r + " (*(*)(" + a + "))(" + args + ")") == Assemble(TrimAll(Split(args)), r + " (*(*)(" + a + "))")
  {
    var s := r + " (*(*)(" + a + "))(" + args + ")";
    var rp := r + " (*(*)(" + a + "))";
    var p := |r| + 9 + |a|;
    assert |s| >= 2 && Trimmed(s) && Parse(s) == ParseCall(s) by {
      NestedCall(r, a, args);
    }
    assert ArgumentsStart(s) == p by {
      NestedArguments(r, a, args);
    }
    assert |s| >= p + 2 && s[p + 1..|s| - 1] == args && ReturnPart(s, p) == rp by {
      NestedReturn(r, a, args);
    }
    ParseCallUnfold(s, p);
  }

  lemma NestedLayout(r: string, a: string, args: string)
    requires r != [] && Trimmed(r)
    ensures var s := r + " (*(*)(" + a + "))(" + args + ")"; var m := |r| + 7 + |a|;
      && Trimmed(s) && |s| == m + 4 + |args| && s[|s| - 1] == ')'
      && s[|r| + 1] == '(' && s[|r| + 3] == '('
      && s[m + 2..|s| - 1] == "(" + args && s[m + 3..|s| - 1] == args
      && s[..m + 2] == r + " (*(*)(" + a + "))"
  {
    var s := r + " (*(*)(" + a + "))(" + args + ")";
    assert s[0] == r[0];
  }

  lemma NestedCall(r: string, a: string, args: string)
    requires r != [] && Trimmed(r)
    ensures var s := r + " (*(*)(" + a + "))(" + args + ")"; |s| >= 2 && Trimmed(s) && Parse(s) == ParseCall(s)
  {
    var s := r + " (*(*)(" + a + "))(" + args + ")";
    NestedLayout(r, a, args);
    TrimSpaceOfTrimmed(s);
    IsFunctionIff(s);
    assert s[|r| + 1..][2] == '(';
    assert OpensGroup(s, |r| + 1);
  }

  lemma NestedArguments(r: string, a: string, args: string)
    requires r != [] && Trimmed(r) && '(' !in args && ')' !in args
    ensures ArgumentsStart(r + " (*(*)(" + a + "))(" + args + ")") == |r| + 9 + |a|
  {
    var s := r + " (*(*)(" + a + "))(" + args + ")";
    var m := |r| + 7 + |a|;
    NestedLayout(r, a, args);
    ExcessAppend("(", args);
    FlatExcess(args);
    var hi := |s| - 1;
    forall j | m + 2 < j < hi ensures Excess(s[j..hi]) != 1 {
      assert s[j..hi] == args[j - m - 3..];
      FlatExcess(args[j - m - 3..]);
    }
    LastWithExcessAt(s, 1, hi, 1, hi, m + 2);
  }

  lemma NestedReturn(r: string, a: string, args: string)
    requires r != [] && Trimmed(r)
    ensures var s := r + " (*(*)(" + a + "))(" + args + ")"; var m := |r| + 7 + |a|;
      |s| >= m + 4 && s[m + 3..|s| - 1] == args && Trimmed(s)
      && ReturnPart(s, m + 2) == r + " (*(*)(" + a + "))"
  {
    NestedLayout(r, a, args);
    var rp := r + " (*(*)(" + a + "))";
    assert rp[0] == r[0];
    TrimSpaceOfTrimmed(rp);
  }

  /** Every suffix of the group's opening `*(*)(` is at most one level
      deep. */
  lemma NestedOpeningDepth(i: nat)
    requires i < 5
    ensures Excess("*(*)("[i..]) <= 1
  {
    if i == 0 {
      assert Excess("*(*)(") == 1;
    } else if i == 1 {
      assert "*(*)("[1..] == "(*)(";
      assert Excess("(*)(") == 1;
    } else if i == 2 {
      assert "*(*)("[2..] == "*)(";
      assert Excess("*)(") == 0;
    } else if i == 3 {
      assert "*(*)("[3..] == ")(";
      assert Excess(")(") == 0;
    } else {
      assert "*(*)("[4..] == "(";
      assert Excess("(") == 1;
    }
  }

  /** The return part ends in the block `(*(*)(a))`, which starts right after
      `r `. */
  lemma NestedBlockStart(r: string, a: string)
    requires '(' !in r && ')' !in r && '(' !in a && ')' !in a
    ensures var rp := r + " (*(*)(" + a + "))"; |rp| > 0 && BlockStart(rp) == |r| + 1
  {
    var rp := r + " (*(*)(" + a + "))";
    var n := |r|;
    var hi := |rp|;
    NestedBlockBalanced(r, a);
    forall j | n + 1 < j < hi ensures Excess(rp[j..hi]) != 0 {
      NestedSuffixExcess(r, a, j);
    }
    LastWithExcessAt(rp, 0, hi, 0, hi, n + 1);
  }

  lemma NestedBlockBalanced(r: string, a: string)
    requires '(' !in a && ')' !in a
    ensures var rp := r + " (*(*)(" + a + "))"; Excess(rp[|r| + 1..|rp|]) == 0
  {
    var rp := r + " (*(*)(" + a + "))";
    FlatExcess(a);
    assert rp[|r| + 1..|rp|] == "(*(*)(" + (a + "))");
    ExcessAppend("(*(*)(", a + "))");
    ExcessAppend(a, "))");
    assert Excess("(*(*)(") == 2;
  }

  /** Every later suffix of the block closes more than it opens. */
  lemma NestedSuffixExcess(r: string, a: string, j: nat)
    requires '(' !in a && ')' !in a
    requires |r| + 1 < j < |r + " (*(*)(" + a + "))"|
    ensures var rp := r + " (*(*)(" + a + "))"; Excess(rp[j..|rp|]) < 0
  {
    var rp := r + " (*(*)(" + a + "))";
    var n := |r|;
    var hi := |rp|;
    if j < n + 7 {
      assert rp[j..hi] == "*(*)("[j - n - 2..] + (a + "))");
      OpeningSuffixExcess(j - n - 2, a);
    } else if j < n + 7 + |a| {
      assert rp[j..hi] == a[j - n - 7..] + "))";
      ExcessAppend(a[j - n - 7..], "))");
      FlatExcess(a[j - n - 7..]);
    } else if j == n + 7 + |a| {
      assert rp[j..hi] == "))";
    } else {
      assert rp[j..hi] == ")";
    }
  }

  lemma OpeningSuffixExcess(i: nat, a: string)
    requires i < 5 && '(' !in a && ')' !in a
    ensures Excess("*(*)("[i..] + (a + "))")) < 0
  {
    ExcessAppend("*(*)("[i..], a + "))");
    ExcessAppend(a, "))");
    FlatExcess(a);
    NestedOpeningDepth(i);
  }

  /** The block goes to the case of line 656: its first `(*)` is followed by
      `(`; once that `(*)` is dropped, the prefix is the `*` before the next
      `(` and the rest joins the return spelling. */
  lemma NestedBlock(r: string, a: string)
    requires '(' !in r && ')' !in r && '(' !in a && ')' !in a
    ensures var rp := r + " (*(*)(" + a + "))"; |rp| > 0 && AnalyseBlock(rp) == BlockOk("*", r + " (" + a + ")")
  {
    var rp := r + " (*(*)(" + a + "))";
    var n := |r|;
    NestedBlockStart(r, a);
    NestedSplit(r, a);
    BlockAt(rp, n + 1);
    NestedGroupOf(a, r + " ");
    NestedReturnJoined(r, a);
  }

  lemma NestedReturnJoined(r: string, a: string)
    ensures (r + " ") + ("(" + a + ")") == r + " (" + a + ")"
  {
  }

  lemma NestedSplit(r: string, a: string)
    ensures var rp := r + " (*(*)(" + a + "))";
      rp[|r| + 1..] == "(*(*)(" + a + "))" && rp[..|r| + 1] == r + " "
  {
  }

  /** Lines 605-611: the block is what follows the start found, and the rest
      what precedes it. */
  lemma BlockAt(rp: string, n: nat)
    requires |rp| > 0 && BlockStart(rp) == n
    ensures AnalyseBlock(rp) == ClassifyBlock(rp[n..], rp[..n])
  {
  }

  lemma NestedGroupOf(a: string, rest: string)
    requires '(' !in a && ')' !in a
    ensures ClassifyBlock("(*(*)(" + a + "))", rest) == BlockOk("*", rest + ("(" + a + ")"))
  {
    NestedIndex(a);
    ClassifyNested("(*(*)(" + a + "))", rest);
    NestedGroupResult(a, rest);
  }

  /** The first `(*)` of `(*(*)(a))` is at index 2, and dropping it leaves
      `(*(a))`. */
  lemma NestedIndex(a: string)
    requires '(' !in a && ')' !in a
    ensures var block := "(*(*)(" + a + "))";
      |block| > 6 && block[5] == '(' && IndexOf(block, "(*)") == 2
      && ReplaceFirst(block, "(*)", "") == "(*(" + a + "))"
  {
    var block := "(*(*)(" + a + "))";
    assert block[2..5] == "(*)";
    assert block[..3][2] != ')' && block[1..][..3][0] != '(';
    IndexAt(block, "(*)", 2);
    assert block[..2] + "" + block[5..] == "(*(" + a + "))";
  }

  /** Line 656: a `(*)` followed by `(` sends the block to the nested case. */
  lemma ClassifyNested(block: string, rest: string)
    requires |block| > 6 && block[5] == '(' && IndexOf(block, "(*)") == 2
    ensures ClassifyBlock(block, rest) == NestedGroup(block, 2, rest)
  {
  }

  lemma NestedGroupResult(a: string, rest: string)
    requires '(' !in a && ')' !in a
    requires var block := "(*(*)(" + a + "))";
      |block| > 6 && IndexOf(block, "(*)") == 2 && ReplaceFirst(block, "(*)", "") == "(*(" + a + "))"
    ensures NestedGroup("(*(*)(" + a + "))", 2, rest) == BlockOk("*", rest + ("(" + a + ")"))
  {
    var block := "(*(*)(" + a + "))";
    var inner := "*(" + a + ")";
    assert ("(*(" + a + "))")[1..|block| - 4] == inner;
    IndexAtFirstChar(inner, "(", 1);
    assert inner[..1] == "*" && inner[1..] == "(" + a + ")";
  }

  lemma NestedFinish(r: string, a: string, fields: seq<string>)
    requires r != [] && Trimmed(r) && '(' !in r && ')' !in r && '(' !in a && ')' !in a
    ensures Assemble(fields, r + " (*(*)(" + a + "))") == Ok(Parsed("*", TrimAll(fields), [r + " (" + a + ")"]))
  {
    NestedBlock(r, a);
    var ret := r + " (" + a + ")";
    assert ret[0] == r[0];
    TrimSpaceOfTrimmed(ret);
    TrimSpaceOfTrimmed("*");
  }

  /** The return part `r (*)` is the block `(*)` of line 612 after `r `. */
  lemma PointerToFunctionBlock(r: string)
    requires '(' !in r && ')' !in r
    ensures var rp := r + " (*)"; |rp| > 0 && AnalyseBlock(rp) == BlockOk("", r + " ")
  {
    var rp := r + " (*)";
    var n := |r|;
    var hi := |rp|;
    assert rp[n + 1..hi] == "(*)";
    assert Excess("(*)") == 0;
    forall j | n + 1 < j < hi ensures Excess(rp[j..hi]) != 0 {
      if j == n + 2 {
        assert rp[j..hi] == "*)";
        assert Excess("*)") == -1;
      } else {
        assert rp[j..hi] == ")";
        assert Excess(")") == -1;
      }
    }
    LastWithExcessAt(rp, 0, |rp|, 0, |rp|, n + 1);
    assert rp[..n + 1] == r + " ";
  }

  /** The part of `s` outside position `pos` holds one character `s[pos]`
      fewer than `s`. */
  lemma CountAvoiding(s: string, pos: nat, lo: nat, hi: nat, c: char)
    requires lo <= hi <= |s| && pos < |s| && (hi <= pos || pos < lo)
    ensures Count(s[lo..hi], c) + (if s[pos] == c then 1 else 0) <= Count(s, c)
  {
    var left := s[..pos];
    var right := s[pos + 1..];
    assert s == (left + [s[pos]]) + right;
    CountAppend(left + [s[pos]], right, c);
    CountAppend(left, [s[pos]], c);
    assert [s[pos]][1..] == [];
    if hi <= pos {
      assert left[lo..hi] == s[lo..hi];
      CountSlice(left, lo, hi, c);
    } else {
      assert right[lo - pos - 1..hi - pos - 1] == s[lo..hi];
      CountSlice(right, lo - pos - 1, hi - pos - 1, c);
    }
  }

  /** Every field and the return spelling of a parse hold fewer `(`, `[` and
      `*` than the input: resolving them recursively terminates. */
  lemma ParseLighter(s0: string)
    requires Parse(s0).Ok?
    ensures forall k :: 0 <= k < |Parse(s0).value.fields| ==> Weight(Parse(s0).value.fields[k]) < Weight(s0)
    ensures forall k :: 0 <= k < |Parse(s0).value.returnTypes| ==> Weight(Parse(s0).value.returnTypes[k]) < Weight(s0)
  {
    var s, pos := ParseOkParts(s0);
    var inner := s[pos + 1..|s| - 1];
    var pieces := Split(inner);
    var rp := ReturnPart(s, pos);
    AssembleShape(TrimAll(pieces), rp);
    SidesLighter(s0, s, pos);
    var p := Parse(s0).value;
    forall k | 0 <= k < |p.fields| ensures Weight(p.fields[k]) < Weight(s0) {
      WeightTrimSpace(pieces[k]);
      WeightTrimSpace(TrimSpace(pieces[k]));
      WeightSplit(inner, k);
    }
    AssembleWeight(TrimAll(pieces), rp);
    assert Weight(rp) <= Weight(s[..pos]);
    assert p == Assemble(TrimAll(pieces), rp).value;
    assert Weight(p.returnTypes[0]) < Weight(s0);
    forall k | 0 <= k < |p.returnTypes| ensures Weight(p.returnTypes[k]) < Weight(s0) {
      assert k == 0;
    }
  }

  lemma WeightTrimSpace(x: string)
    ensures Weight(TrimSpace(x)) <= Weight(x)
  {
    CountTrimSpace(x, '(');
    CountTrimSpace(x, '[');
    CountTrimSpace(x, '*');
  }

  lemma WeightSplit(a: string, k: nat)
    requires k < |Split(a)|
    ensures Weight(Split(a)[k]) <= Weight(a)
  {
    SplitCounts(a, k, '(');
    SplitCounts(a, k, '[');
    SplitCounts(a, k, '*');
  }

  /** Both sides of the `(` at `pos` are lighter than the input. */
  lemma SidesLighter(s0: string, s: string, pos: nat)
    requires s == TrimSpace(s0) && 1 <= pos <= |s| - 2 && s[pos] == '('
    ensures Weight(s[pos + 1..|s| - 1]) < Weight(s0)
    ensures Weight(s[..pos]) < Weight(s0)
  {
    WeightTrimSpace(s0);
    CountAvoiding(s, pos, pos + 1, |s| - 1, '(');
    CountAvoiding(s, pos, pos + 1, |s| - 1, '[');
    CountAvoiding(s, pos, pos + 1, |s| - 1, '*');
    CountAvoiding(s, pos, 0, pos, '(');
    CountAvoiding(s, pos, 0, pos, '[');
    CountAvoiding(s, pos, 0, pos, '*');
  }

  lemma AssembleWeight(fields: seq<string>, rp: string)
    requires |rp| > 0 && Assemble(fields, rp).Ok?
    ensures Weight(Assemble(fields, rp).value.returnTypes[0]) <= Weight(rp)
  {
    AssembleCounts(fields, rp, '(');
    AssembleCounts(fields, rp, '[');
    AssembleCounts(fields, rp, '*');
  }

  /** The return spelling holds no character the return part lacks. */
  lemma AssembleCounts(fields: seq<string>, rp: string, c: char)
    requires |rp| > 0 && Assemble(fields, rp).Ok?
    ensures Count(Assemble(fields, rp).value.returnTypes[0], c) <= Count(rp, c)
  {
    if rp[|rp| - 1] != ')' {
      assert Assemble(fields, rp) == Ok(Finish("", fields, rp));
      CountTrimSpace(rp, c);
    } else {
      var b := AnalyseBlock(rp);
      assert Assemble(fields, rp) == Ok(Finish(b.prefix, fields, b.ret));
      CountTrimSpace(b.ret, c);
    }
  }

  // ---------------------------------------------------------------------------
  // The scanning loops of the source

  /** The backward scan of lines 532-550 for the `(` that opens the parameter
      list. */
  method FindArgumentsStart(s: string) returns (pos: int)
    requires |s| >= 2
    ensures pos == ArgumentsStart(s)
  {
    var counter := 1;
    var i := |s| - 2;
    while true
      invariant 0 <= i <= |s| - 2
      invariant counter == 1 - Excess(s[i + 1..|s| - 1])
      invariant NoDepth(s, i + 1, |s| - 1, 1)
      decreases i
    {
      if i == 0 {
        return -1;
      }
      ExcessCons(s, i, |s| - 1);
      if s[i] == ')' {
        counter := counter + 1;
      }
      if s[i] == '(' {
        counter := counter - 1;
      }
      if counter == 0 {
        return i;
      }
      i := i - 1;
    }
  }

  /** The forward scan of lines 559-575 that cuts the parameter list at its
      top-level commas. */
  method SplitArguments(arguments: string) returns (f: seq<string>)
    requires |arguments| >= 2
    ensures f == TrimAll(Split(arguments[1..|arguments| - 1]))
  {
    var end := |arguments| - 1;
    var start := 1;
    var counter := 0;
    f := [];
    ghost var raw: seq<string> := [];
    ghost var whole := ScanFields(arguments, end, 1, 1, 0);
    for i := 1 to end
      invariant 1 <= start <= i
      invariant raw + ScanFields(arguments, end, start, i, counter) == whole
      invariant TrimmedCopy(f, raw)
    {
      if arguments[i] == '(' {
        counter := counter + 1;
      }
      if arguments[i] == ')' {
        counter := counter - 1;
      }
      if counter == 0 && arguments[i] == ',' {
        f := f + [TrimSpace(arguments[start..i])];
        raw := raw + [arguments[start..i]];
        start := i + 1;
      }
    }
    f := f + [TrimSpace(arguments[start..end])];
    raw := raw + [arguments[start..end]];
    assert arguments[1..1] == [];
    ScanFieldsSplit(arguments, end, 1, 1, 0);
    TrimmedCopyIsTrimAll(f, raw);
  }

  predicate TrimmedCopy(f: seq<string>, raw: seq<string>) {
    |f| == |raw| && forall k :: 0 <= k < |raw| ==> f[k] == TrimSpace(raw[k])
  }

  lemma TrimmedCopyIsTrimAll(f: seq<string>, raw: seq<string>)
    requires TrimmedCopy(f, raw)
    ensures f == TrimAll(raw)
  {
  }

  /** The backward scan of lines 593-604 for the start of the last balanced
      group of the return part. */
  method FindBlockStart(r: string) returns (position: nat)
    ensures position == BlockStart(r)
  {
    var counter := 0;
    var i := |r|;
    while i > 0
      invariant 0 <= i <= |r|
      invariant counter == -Excess(r[i..|r|])
      invariant forall j :: i <= j < |r| ==> Excess(r[j..|r|]) != 0
    {
      i := i - 1;
      ExcessCons(r, i, |r|);
      if r[i] == ')' {
        counter := counter + 1;
      }
      if r[i] == '(' {
        counter := counter - 1;
      }
      if counter == 0 {
        return i;
      }
    }
    return 0;
  }

  /** Lines 625-632 and 680-687: the parentheses of a byte buffer are blanked
      in place. */
  method BlankParensInPlace(b: array<char>)
    modifies b
    ensures b[..] == BlankParens(old(b[..]))
  {
    for i := 0 to b.Length
      invariant forall k :: 0 <= k < i ==> b[k] == (if old(b[k]) == '(' || old(b[k]) == ')' then ' ' else old(b[k]))
      invariant forall k :: i <= k < b.Length ==> b[k] == old(b[k])
    {
      if b[i] == '(' || b[i] == ')' {
        b[i] := ' ';
      }
    }
  }

  /** The buffer copy, blanking and removal of the first `*` of lines 625-634
      and 680-688. */
  method BlankStar(block: string) returns (prefix: string)
    ensures prefix == BlankedPrefix(block)
  {
    var b := new char[|block|](i requires 0 <= i < |block| => block[i]);
    assert b[..] == block;
    BlankParensInPlace(b);
    prefix := ReplaceFirst(b[..], "*", "");
  }

  /** `ParseFunction`, as the sequence of scans of the source. */
  method ParseFunction(s0: string) returns (r: ParseOutcome)
    ensures r == Parse(s0)
  {
    var s := TrimSpace(s0);
    TrimSpaceTrimmed(s0);
    if !IsFunction(s) {
      return Fail(NotFunction);
    }
    if s[|s| - 1] != ')' {
      return Fail(NoClosingParen);
    }
    FunctionSpellingLength(s);
    assert Parse(s0) == ParseCall(s);
    var pos := FindArgumentsStart(s);
    if pos < 0 {
      return Fail(NoOpeningParen);
    }
    ParseCallUnfold(s, pos);
    var arguments := s[pos..];
    assert arguments[1..|arguments| - 1] == s[pos + 1..|s| - 1];
    var f := SplitArguments(arguments);
    var returnPart := TrimSpace(s[..pos]);
    assert returnPart == ReturnPart(s, pos);
    if returnPart[|returnPart| - 1] != ')' {
      return Ok(Finish("", f, returnPart));
    }
    var position := FindBlockStart(returnPart);
    var outcome := ExamineBlock(returnPart[position..], returnPart[..position]);
    assert outcome == AnalyseBlock(returnPart);
    match outcome
    case BlockOk(prefix, ret) => r := Ok(Finish(prefix, f, ret));
    case BlockFail(e) => r := Fail(e);
    case BlockPanic => r := Panic;
  }

  /** Lines 611-691: the cases of the block, with the byte-buffer loops of
      lines 625-634 and 680-688 done by `BlankStar`. */
  method ExamineBlock(block: string, rest: string) returns (r: BlockOutcome)
    requires |block| > 0
    ensures r == ClassifyBlock(block, rest)
  {
    if block == "(*)" {
      return BlockOk("", rest);
    }
    var index := IndexOf(block, "(*)");
    if index < 0 {
      if Count(block, '(') == 1 {
        var prefix := BlankStar(block);
        return BlockOk(prefix, rest);
      }
      if |block| < 2 {
        return BlockPanic;
      }
      var inner := block[1..|block| - 1];
      var k := IndexOf(inner, "(");
      if k < 0 {
        return BlockFail(NoParenInBlock);
      }
      if !Contains(inner[..k], "*") {
        return BlockFail(UndefinedSituation);
      }
      return BlockOk(ReplaceFirst(inner[..k], "*", ""), rest + inner[k..]);
    }
    if |block| - 1 > index + 3 && block[index + 3] == '(' {
      var b := ReplaceFirst(block, "(*)", "");
      var inner := b[1..|b| - 1];
      var k := IndexOf(inner, "(");
      if k < 0 {
        return BlockFail(NoParenInBlock);
      }
      return BlockOk(inner[..k], rest + inner[k..]);
    }
    var prefix := BlankStar(block);
    return BlockOk(prefix, rest);
  }
}
