/** The naming utilities at the end of types/resolve.go: `GenerateCorrectType`
    (lines 735-774), `GetAmountArraySize` (lines 776-797) and `GetBaseType`
    (lines 799-824). */
module Names {
  import opened GoStrings
  import opened Normalize
  import opened Classify
  import opened Resolve

  // ---------------------------------------------------------------------------
  // GenerateCorrectType

  /** The characters that lines 758-765 turn into `_`. */
  predicate Unacceptable(c: char) {
    c == '(' || c == ')' || c == ' ' || c == ':' || c == '/' || c == '-' || c == '\\' || c == '.'
  }

  /** The replacements of lines 758-765 on the annotation: every character that
      cannot stand in a C name becomes `_`, and nothing else changes. */
  function Underscored(inside: string): (r: string)
    ensures |r| == |inside|
    ensures forall k :: 0 <= k < |r| ==> r[k] == if Unacceptable(inside[k]) then '_' else inside[k]
  {
    var t1 := ReplaceAll(inside, "(", "_");
    var t2 := ReplaceAll(t1, ")", "_");
    var t3 := ReplaceAll(t2, " ", "_");
    var t4 := ReplaceAll(t3, ":", "_");
    var t5 := ReplaceAll(t4, "/", "_");
    var t6 := ReplaceAll(t5, "-", "_");
    var t7 := ReplaceAll(t6, "\\", "_");
    var t8 := ReplaceAll(t7, ".", "_");
    ReplaceAllChar(inside, '(', '_');
    ReplaceAllChar(t1, ')', '_');
    ReplaceAllChar(t2, ' ', '_');
    ReplaceAllChar(t3, ':', '_');
    ReplaceAllChar(t4, '/', '_');
    ReplaceAllChar(t5, '-', '_');
    ReplaceAllChar(t6, '\\', '_');
    ReplaceAllChar(t7, '.', '_');
    t8
  }

  /** The loop of lines 745-749: the first `)` at or after `i`, or `|t|` when
      there is none. */
  function CloseIndex(t: string, i: nat): (k: nat)
    requires i <= |t|
    ensures i <= k <= |t|
    ensures k < |t| ==> t[k] == ')'
    ensures forall j :: i <= j < k ==> t[j] != ')'
    decreases |t| - i
  {
    if i == |t| || t[i] == ')' then i else CloseIndex(t, i + 1)
  }

  /** Line 755 slices up to the `)` that the loop finds, and panics when the loop
      runs off the end: the annotation must be closed. The position of
      `(anonymous` is taken in the original name and used in the name with its
      first `anonymous` removed, as lines 739-744 do. */
  predicate AnonymousClosed(name: string) {
    var index := IndexOf(name, "(anonymous");
    var t := ReplaceFirst(name, "anonymous", "");
    index >= 0 ==> index <= |t| && CloseIndex(t, index) < |t|
  }

  /** Lines 755-772 once the annotation `t[index..last + 1]` is found: it is
      rewritten to name characters, every `:` left becomes `D`, and the result
      is normalised. */
  function Rewritten(t: string, index: nat, last: nat): (r: string)
    requires index <= last < |t|
    ensures ':' !in r
    ensures '\t' !in r && '\n' !in r && '\r' !in r && Trimmed(r)
  {
    var out := t[..index] + Underscored(t[index..last + 1]) + t[last + 1..];
    ReplaceAllRemovesChar(out, ':', "D");
    CleanCType(ReplaceAll(out, ":", "D"))
  }

  /** What `GenerateCorrectType` returns. */
  function CorrectType(name: string): string
    requires AnonymousClosed(name)
  {
    if !Contains(name, "anonymous") then CleanCType(name)
    else
      var index := IndexOf(name, "(anonymous");
      if index < 0 then name
      else
        var t := ReplaceFirst(name, "anonymous", "");
        Rewritten(t, index, CloseIndex(t, index))
  }

  /** `GenerateCorrectType`, with the loop of lines 745-749. */
  method GenerateCorrectType(name: string) returns (r: string)
    requires AnonymousClosed(name)
    ensures r == CorrectType(name)
  {
    if !Contains(name, "anonymous") {
      return CleanCType(name);
    }
    var index := IndexOf(name, "(anonymous");
    if index < 0 {
      return name;
    }
    var t := ReplaceFirst(name, "anonymous", "");
    var last := index;
    while last < |t| && t[last] != ')'
      invariant index <= last <= |t|
      invariant CloseIndex(t, last) == CloseIndex(t, index)
      decreases |t| - last
    {
      last := last + 1;
    }
    r := Rewritten(t, index, last);
  }

  /** A name holding `(anonymous` also holds `anonymous`. */
  lemma AnnotationIsAnonymous(name: string)
    requires Contains(name, "(anonymous")
    ensures Contains(name, "anonymous")
  {
    var k := IndexOf(name, "(anonymous");
    assert name[k + 1..k + 10] == name[k..k + 10][1..];
    ContainsAt(name, "anonymous", k + 1);
  }

  /** Once clang's annotation is rewritten, the name holds no `:` (line 770
      turns the ones outside the annotation into `D`), and it has the shape of
      a normal form: no tab, line feed or carriage return, nothing to trim. */
  lemma AnnotatedNameHasNoColon(name: string)
    requires AnonymousClosed(name) && Contains(name, "(anonymous")
    ensures ':' !in CorrectType(name)
    ensures '\t' !in CorrectType(name) && '\n' !in CorrectType(name) && '\r' !in CorrectType(name)
    ensures Trimmed(CorrectType(name))
  {
    AnnotationIsAnonymous(name);
  }

  /** A name without `anonymous` is only normalised. */
  lemma PlainNameIsCleaned(name: string)
    requires !Contains(name, "anonymous")
    ensures AnonymousClosed(name)
    ensures CorrectType(name) == CleanCType(name)
  {
    if IndexOf(name, "(anonymous") >= 0 {
      AnnotationIsAnonymous(name);
    }
  }

  /** An annotation `(anonymous<body>)` after a prefix without `(` or
      `anonymous` becomes `_<body>_` with every character of the body that
      cannot stand in a C name turned into `_`; the rest of the name is kept,
      but for `:` which becomes `D`, and the whole is normalised. */
  lemma AnnotationRewritten(pre: string, body: string, post: string)
    requires '(' !in pre && !Contains(pre, "anonymous") && ')' !in body
    ensures AnonymousClosed(pre + "(anonymous" + body + ")" + post)
    ensures CorrectType(pre + "(anonymous" + body + ")" + post)
      == CleanCType(ReplaceAll(pre + "_" + Underscored(body) + "_" + post, ":", "D"))
  {
    var name := pre + "(anonymous" + body + ")" + post;
    var n := |pre|;
    AnnotationFound(pre, body, post);
    var t := pre + "(" + body + ")" + post;
    var last := n + 1 + |body|;
    AnnotationEnd(pre, body, post);
    assert AnonymousClosed(name);
    assert CorrectType(name) == Rewritten(t, n, last);
    RewrittenParts(pre, body, post);
  }

  /** Where lines 739-744 find the annotation, and what removing the first
      `anonymous` leaves. */
  lemma AnnotationFound(pre: string, body: string, post: string)
    requires '(' !in pre && !Contains(pre, "anonymous")
    ensures IndexOf(pre + "(anonymous" + body + ")" + post, "(anonymous") == |pre|
    ensures Contains(pre + "(anonymous" + body + ")" + post, "anonymous")
    ensures ReplaceFirst(pre + "(anonymous" + body + ")" + post, "anonymous", "")
      == pre + "(" + body + ")" + post
  {
    var name := pre + "(anonymous" + body + ")" + post;
    var n := |pre|;
    AnnotationSlices(pre, body, post);
    IndexAtFirstChar(name, "(anonymous", n);
    NoEarlierAnonymous(pre, name);
    IndexAt(name, "anonymous", n + 1);
    ContainsAt(name, "anonymous", n + 1);
  }

  /** No `anonymous` starts before the one of the annotation. */
  lemma NoEarlierAnonymous(pre: string, name: string)
    requires !Contains(pre, "anonymous") && |pre| < |name| && name[|pre|] == '('
    requires name[..|pre|] == pre
    ensures forall j :: 0 <= j < |pre| + 1 ==> !HasPrefix(name[j..], "anonymous")
  {
    var n := |pre|;
    forall j | 0 <= j < n + 1 ensures !HasPrefix(name[j..], "anonymous") {
      if j + 9 <= n {
        assert name[j..][..9] == pre[j..j + 9];
        if pre[j..j + 9] == "anonymous" {
          ContainsAt(pre, "anonymous", j);
        }
      } else if j + 9 <= |name| {
        assert name[j..][..9][n - j] == '(';
      }
    }
  }

  lemma AnnotationSlices(pre: string, body: string, post: string)
    ensures (pre + "(anonymous" + body + ")" + post)[|pre|..|pre| + 10] == "(anonymous"
    ensures (pre + "(anonymous" + body + ")" + post)[|pre| + 1..|pre| + 10] == "anonymous"
    ensures (pre + "(anonymous" + body + ")" + post)[..|pre| + 1] == pre + "("
    ensures (pre + "(anonymous" + body + ")" + post)[..|pre|] == pre
    ensures (pre + "(anonymous" + body + ")" + post)[|pre| + 10..] == body + ")" + post
  {
    var name := pre + "(anonymous" + body + ")" + post;
    var n := |pre|;
    assert name == pre + ("(anonymous" + (body + ")" + post));
    assert name[..n + 1] == pre + "(";
  }

  /** The loop of lines 745-749 stops at the `)` that closes the annotation. */
  lemma AnnotationEnd(pre: string, body: string, post: string)
    requires ')' !in body
    ensures CloseIndex(pre + "(" + body + ")" + post, |pre|) == |pre| + 1 + |body|
  {
    var t := pre + "(" + body + ")" + post;
    var n := |pre|;
    var last := n + 1 + |body|;
    forall j | n <= j < last ensures t[j] != ')' {
      if j > n {
        assert t[j] == body[j - n - 1];
      }
    }
    assert t[last] == ')';
  }

  /** Lines 755-772 on the name with the annotation found. */
  lemma RewrittenParts(pre: string, body: string, post: string)
    ensures Rewritten(pre + "(" + body + ")" + post, |pre|, |pre| + 1 + |body|)
      == CleanCType(ReplaceAll(pre + "_" + Underscored(body) + "_" + post, ":", "D"))
  {
    var t := pre + "(" + body + ")" + post;
    var n := |pre|;
    var last := n + 1 + |body|;
    assert t[..n] == pre;
    assert t[n..last + 1] == "(" + body + ")";
    assert t[last + 1..] == post;
    assert Underscored("(" + body + ")") == "_" + Underscored(body) + "_";
    assert t[..n] + Underscored(t[n..last + 1]) + t[last + 1..] == pre + "_" + Underscored(body) + "_" + post;
  }

  /** The shape of the example on lines 735 and 751-753
      (`union (anonymous union at tests/union.c:46:3)`): when the rewritten
      spelling is already a plain name, it is the result. */
  lemma AnnotationToName(pre: string, body: string, post: string)
    requires '(' !in pre && !Contains(pre, "anonymous") && ')' !in body
    requires ':' !in pre && ':' !in post
    requires NameSpelling(pre + "_" + Underscored(body) + "_" + post)
    ensures AnonymousClosed(pre + "(anonymous" + body + ")" + post)
    ensures CorrectType(pre + "(anonymous" + body + ")" + post) == pre + "_" + Underscored(body) + "_" + post
  {
    var out := pre + "_" + Underscored(body) + "_" + post;
    AnnotationRewritten(pre, body, post);
    var u := Underscored(body);
    assert ':' !in u by {
      forall k | 0 <= k < |u| ensures u[k] != ':' { assert Unacceptable(':'); }
    }
    assert ':' !in out;
    MissingChar(out, ":", 0);
    ReplaceAllAbsent(out, ":", "D");
    NameIsClean(out);
  }

  /** The rewriting of line 757-764 works character by character. */
  lemma UnderscoredAppend(a: string, b: string)
    ensures Underscored(a + b) == Underscored(a) + Underscored(b)
  {
    var l, r := Underscored(a + b), Underscored(a) + Underscored(b);
    assert |l| == |r|;
    forall k | 0 <= k < |l| ensures l[k] == r[k] {
      if k < |a| { assert (a + b)[k] == a[k]; } else { assert (a + b)[k] == b[k - |a|]; }
    }
  }



  // ---------------------------------------------------------------------------
  // GetAmountArraySize

  /** The leftmost match of `\[(\d+)\]` at or after `i` (line 781), as the
      position of its `[`. */
  function FirstDimension(t: string, i: nat): (r: Option<nat>)
    requires i <= |t|
    ensures r.Some? ==> i <= r.value < |t| && DimensionEnd(t, r.value) != r.value
    ensures r.Some? ==> forall j :: i <= j < r.value ==> DimensionEnd(t, j) == j
    ensures r.None? ==> forall j :: i <= j < |t| ==> DimensionEnd(t, j) == j
    decreases |t| - i
  {
    if i == |t| then None
    else if DimensionEnd(t, i) != i then Some(i)
    else FirstDimension(t, i + 1)
  }

  /** The value of a string of decimal digits: `strconv.Atoi` without its
      overflow check. */
  function DigitsValue(ds: string): nat
    requires forall k :: 0 <= k < |ds| ==> IsDigit(ds[k])
  {
    if ds == [] then 0
    else
      var last := ds[|ds| - 1];
      assert IsDigit(last);
      DigitsValue(ds[..|ds| - 1]) * 10 + (last as int - '0' as int)
  }

  /** The decimal spelling of `n`, as clang prints an array size. */
  function Decimal(n: nat): (ds: string)
    ensures ds != [] && forall k :: 0 <= k < |ds| ==> IsDigit(ds[k])
  {
    if n < 10 then [('0' as int + n) as char]
    else Decimal(n / 10) + [('0' as int + n % 10) as char]
  }

  lemma {:induction false} DecimalValue(n: nat)
    ensures DigitsValue(Decimal(n)) == n
  {
    if n >= 10 {
      DecimalValue(n / 10);
      var ds := Decimal(n);
      assert ds[..|ds| - 1] == Decimal(n / 10);
    }
  }

  /** `GetAmountArraySize`: the size in the first `[digits]`. Line 792 reads a
      nil match when there is none, so the source requires one. */
  function ArraySize(s: string): nat
    requires FirstDimension(s, 0).Some?
  {
    var j := FirstDimension(s, 0).value;
    var e := DimensionEnd(s, j);
    DigitsValue(s[j + 1..e - 1])
  }

  /** The size printed in the first dimension is the size read back. */
  lemma SizeOfFirstDimension(base: string, n: nat, rest: string)
    requires '[' !in base
    ensures FirstDimension(base + "[" + Decimal(n) + "]" + rest, 0) == Some(|base|)
    ensures ArraySize(base + "[" + Decimal(n) + "]" + rest) == n
  {
    var ds := Decimal(n);
    var s := base + "[" + ds + "]" + rest;
    var j := |base|;
    assert s[j] == '[';
    forall k | j + 1 <= k < j + 1 + |ds| ensures IsDigit(s[k]) {
      assert s[k] == ds[k - j - 1];
    }
    assert s[j + 1 + |ds|] == ']';
    var d := DigitsEnd(s, j + 1);
    assert d == j + 1 + |ds|;
    assert DimensionEnd(s, j) == d + 1;
    forall k | 0 <= k < j ensures DimensionEnd(s, k) == k {
      assert s[k] == base[k];
    }
    assert s[j + 1..d] == ds;
    DecimalValue(n);
  }

  lemma {:induction false} DigitsEndKept(s: string, rest: string, i: nat)
    requires i <= |s| && DigitsEnd(s, i) < |s|
    ensures DigitsEnd(s + rest, i) == DigitsEnd(s, i)
    decreases |s| - i
  {
    assert (s + rest)[i] == s[i];
    if IsDigit(s[i]) {
      DigitsEndKept(s, rest, i + 1);
    }
  }

  /** A `[digits]` test whose digits stop inside `s` reads nothing after it. */
  lemma DimensionEndKept(s: string, rest: string, j: nat)
    requires j < |s| && DigitsEnd(s, j + 1) < |s|
    ensures DimensionEnd(s + rest, j) == DimensionEnd(s, j)
  {
    var d := DigitsEnd(s, j + 1);
    DigitsEndKept(s, rest, j + 1);
    assert (s + rest)[j] == s[j] && (s + rest)[d] == s[d];
  }

  lemma {:induction false} FirstDimensionAt(t: string, i: nat, p: nat)
    requires i <= p < |t| && DimensionEnd(t, p) != p
    requires forall j :: i <= j < p ==> DimensionEnd(t, j) == j
    ensures FirstDimension(t, i) == Some(p)
    decreases p - i
  {
    if i < p {
      FirstDimensionAt(t, i + 1, p);
    }
  }

  /** Line 781 takes the leftmost match: once a spelling has a `[digits]`,
      no text after it changes where the size is read or what it is. */
  lemma ArraySizeIgnoresRest(s: string, rest: string)
    requires FirstDimension(s, 0).Some?
    ensures FirstDimension(s + rest, 0) == FirstDimension(s, 0)
    ensures ArraySize(s + rest) == ArraySize(s)
  {
    var t := s + rest;
    var p := FirstDimension(s, 0).value;
    var e := DimensionEnd(s, p);
    forall j | 0 <= j < p ensures DimensionEnd(t, j) == j {
      assert !IsDigit(s[p]);
      DimensionEndKept(s, rest, j);
    }
    DimensionEndKept(s, rest, p);
    FirstDimensionAt(t, 0, p);
    assert t[p + 1..e - 1] == s[p + 1..e - 1];
  }

  /** The example of lines 777-779. */
  lemma CharArraySizeExample()
    ensures FirstDimension("char [40]", 0).Some?
    ensures ArraySize("char [40]") == 40
  {
    assert Decimal(40) == "40";
    assert "char [40]" == "char " + "[" + Decimal(40) + "]" + "";
    SizeOfFirstDimension("char ", 40, "");
  }

  // ---------------------------------------------------------------------------
  // GetBaseType

  /** The loop of lines 810-815: the last `[` before position `n`, or -1. */
  function LastOpen(s: string, n: nat): (k: int)
    requires n <= |s|
    ensures -1 <= k < n
    ensures k >= 0 ==> s[k] == '['
    ensures forall j :: k < j < n ==> s[j] != '['
  {
    if n == 0 then -1 else if s[n - 1] == '[' then n - 1 else LastOpen(s, n - 1)
  }

  /** Cutting a spelling before a `(`, `[` or `*` makes it lighter. */
  lemma PrefixLighter(s: string, k: nat)
    requires k < |s| && (s[k] == '(' || s[k] == '[' || s[k] == '*')
    ensures Weight(s[..k]) < Weight(s)
  {
    CountSlice(s, k, |s|, '(');
    CountSlice(s, k, |s|, '[');
    CountSlice(s, k, |s|, '*');
    assert s[k..][0] == s[k];
  }

  /** Replacing `(*)` by `*` (line 822) removes a `(`. */
  lemma GroupReplacementLighter(s: string)
    requires Contains(s, "(*)")
    ensures Weight(TrimSpace(ReplaceAll(s, "(*)", "*"))) < Weight(s)
  {
    var t := ReplaceAll(s, "(*)", "*");
    ReplaceAllCount(s, "(*)", "*", '(');
    ReplaceAllCount(s, "(*)", "*", '[');
    ReplaceAllCount(s, "(*)", "*", '*');
    CountTrimSpace(t, '(');
    CountTrimSpace(t, '[');
    CountTrimSpace(t, '*');
  }

  /** Trimming and normalising never make a spelling heavier. */
  lemma PreparedLighter(s0: string)
    ensures Weight(CleanCType(TrimSpace(s0))) <= Weight(s0)
  {
    CountTrimSpace(s0, '(');
    CountTrimSpace(s0, '[');
    CountTrimSpace(s0, '*');
  }

  /** What `GetBaseType` returns: trimmed, no trailing `*`, no `(*)` group,
      and no `[` at all when it still ends in `]`. */
  predicate BaseShaped(r: string) {
    Trimmed(r) && !HasSuffix(r, "*") && !Contains(r, "(*)") && (HasSuffix(r, "]") ==> '[' !in r)
  }

  /** `GetBaseType` (lines 799-824). */
  function BaseType(s0: string): (r: string)
    ensures BaseShaped(r)
    ensures Weight(r) <= Weight(s0)
    decreases Weight(s0), 1
  {
    PreparedLighter(s0);
    BaseOfPrepared(CleanCType(TrimSpace(s0)))
  }

  /** Lines 806-823, on the trimmed and normalised spelling. */
  function BaseOfPrepared(s: string): (r: string)
    requires Trimmed(s)
    ensures BaseShaped(r)
    ensures Weight(r) <= Weight(s)
    decreases Weight(s), 0
  {
    if |s| < 1 then s
    else
      var k := if s[|s| - 1] == ']' then LastOpen(s, |s|) else -1;
      if k >= 0 then
        PrefixLighter(s, k);
        BaseType(s[..k])
      else if s[|s| - 1] == '*' then
        PrefixLighter(s, |s| - 1);
        BaseType(s[..|s| - 1])
      else if Contains(s, "(*)") then
        GroupReplacementLighter(s);
        BaseType(TrimSpace(ReplaceAll(s, "(*)", "*")))
      else
        StopShaped(s);
        s
  }

  /** Where the loop of lines 810-815 and the tests of lines 817-823 find
      nothing, the spelling has the shape of a base type. */
  lemma StopShaped(s: string)
    requires Trimmed(s) && s != [] && s[|s| - 1] != '*' && !Contains(s, "(*)")
    requires s[|s| - 1] == ']' ==> LastOpen(s, |s|) == -1
    ensures BaseShaped(s)
  {
    assert s[|s| - 1..] == [s[|s| - 1]];
  }

  /** `GetBaseType`, with the backward scan of lines 810-815. */
  method GetBaseType(s0: string) returns (r: string)
    ensures r == BaseType(s0)
    decreases Weight(s0)
  {
    PreparedLighter(s0);
    var s := TrimSpace(s0);
    s := CleanCType(s);
    if |s| < 1 {
      return s;
    }
    if s[|s| - 1] == ']' {
      var i := |s| - 1;
      while i >= 0
        invariant -1 <= i < |s|
        invariant LastOpen(s, i + 1) == LastOpen(s, |s|)
        decreases i + 1
      {
        if s[i] == '[' {
          PrefixLighter(s, i);
          r := GetBaseType(s[..i]);
          return;
        }
        i := i - 1;
      }
    }
    if s[|s| - 1] == '*' {
      PrefixLighter(s, |s| - 1);
      r := GetBaseType(s[..|s| - 1]);
      return;
    }
    if Contains(s, "(*)") {
      GroupReplacementLighter(s);
      r := GetBaseType(TrimSpace(ReplaceAll(s, "(*)", "*")));
      return;
    }
    return s;
  }

  /** A spelling that is already in the shape `GetBaseType` returns, and that
      normalisation leaves alone, is its own base type. */
  lemma BaseTypeOfBase(r: string)
    requires BaseShaped(r) && CleanPass(r) == r
    ensures BaseType(r) == r
  {
    TrimSpaceOfTrimmed(r);
    CleanCTypeOfFixedPoint(r);
    BaseShapeEnds(r);
    BaseTypeStops(r);
  }

  /** What the last character of such a spelling tells the loop of lines
      810-815 and the test of line 817. */
  lemma BaseShapeEnds(r: string)
    requires BaseShaped(r)
    ensures r != [] ==> r[|r| - 1] != '*' && (r[|r| - 1] == ']' ==> LastOpen(r, |r|) == -1)
  {
    if r != [] {
      assert r[|r| - 1..] == [r[|r| - 1]];
      if r[|r| - 1] == ']' {
        assert forall j :: 0 <= j < |r| ==> r[j] != '[';
      }
    }
  }

  lemma BaseTypeStops(r: string)
    requires CleanCType(TrimSpace(r)) == r && !Contains(r, "(*)")
    requires r != [] ==> r[|r| - 1] != '*' && (r[|r| - 1] == ']' ==> LastOpen(r, |r|) == -1)
    ensures BaseType(r) == r
  {
    BaseTypeOfPrepared(r);
    PreparedStops(r);
  }

  lemma BaseTypeOfPrepared(r: string)
    requires CleanCType(TrimSpace(r)) == r
    ensures Trimmed(r) && BaseType(r) == BaseOfPrepared(r)
  {
  }

  lemma PreparedStops(r: string)
    requires Trimmed(r) && !Contains(r, "(*)")
    requires r != [] ==> r[|r| - 1] != '*' && (r[|r| - 1] == ']' ==> LastOpen(r, |r|) == -1)
    ensures BaseOfPrepared(r) == r
  {
  }

  /** Taking the base type twice is taking it once, whenever normalisation
      leaves the base type alone. */
  lemma BaseTypeIdempotent(s: string)
    requires CleanPass(BaseType(s)) == BaseType(s)
    ensures BaseType(BaseType(s)) == BaseType(s)
  {
    BaseTypeOfBase(BaseType(s));
  }

  /** A name and a trailing space: the space is trimmed and the name is its
      own base type. */
  lemma BaseOfSpacedName(x: string)
    requires NameSpelling(x)
    ensures BaseType(x + " ") == x
  {
    var s := x + " ";
    assert s[..|s| - 1] == x;
    assert TrimSpace(s) == x;
    NameIsClean(x);
    NameChars(x);
    MissingChar(x, "(*)", 0);
    assert x[|x| - 1..] == [x[|x| - 1]];
    BaseTypeOfBase(x);
  }

  /** The example of lines 799-801 for a pointer: `x *`, as clang prints a
      pointer to the name `x`, has the base type `x`. */
  lemma BaseOfNamePointer(x: string)
    requires NameSpelling(x)
    ensures BaseType(x + " *") == x
  {
    var s := x + " *";
    NamePointerIsClean(x);
    TrimSpaceOfTrimmed(s);
    BaseTypeOfPrepared(s);
    assert s[|s| - 1] == '*' && s[..|s| - 1] == x + " ";
    BaseOfSpacedName(x);
  }

  /** The last `[` is the one of the last dimension. */
  lemma LastOpenOfDimension(p: string, n: string)
    requires Digits(n)
    ensures LastOpen(p + "[" + n + "]", |p + "[" + n + "]"|) == |p|
  {
    var s := p + "[" + n + "]";
    assert s[|s| - 1] == ']' && s[|p|] == '[';
    assert forall j :: |p| < j < |s| - 1 ==> s[j] == n[j - |p| - 1];
    assert LastOpen(s, |s|) == LastOpen(s, |s| - 1);
    LastOpenFrom(s, |p|, |s| - 1);
  }

  lemma {:induction false} LastOpenFrom(s: string, p: nat, m: nat)
    requires p < m <= |s| && s[p] == '['
    requires forall j :: p < j < m ==> s[j] != '['
    ensures LastOpen(s, m) == p
    decreases m
  {
    if m - 1 > p {
      LastOpenFrom(s, p, m - 1);
    }
  }

  /** One round of the loop of lines 810-815 on a spelling in normal form:
      the last dimension is taken off. */
  lemma BaseOfLastDimension(p: string, n: string)
    requires Digits(n) && CleanCType(p + "[" + n + "]") == p + "[" + n + "]"
    ensures BaseType(p + "[" + n + "]") == BaseType(p)
  {
    var s := p + "[" + n + "]";
    TrimSpaceOfTrimmed(s);
    BaseTypeOfPrepared(s);
    LastOpenOfDimension(p, n);
    assert s[..|p|] == p;
  }

  /** The example of lines 799-801 for an array: `x [n0][n1]...`, as clang
      prints a fixed-size array of the name `x`, has the base type `x`; the
      loop of lines 810-815 takes one dimension off at a time. */
  lemma {:induction false} BaseOfNameArray(x: string, ns: seq<string>)
    requires NameSpelling(x) && forall k :: 0 <= k < |ns| ==> Digits(ns[k])
    ensures BaseType(x + " " + Dimensions(ns)) == x
    decreases |ns|
  {
    if ns == [] {
      assert x + " " + Dimensions(ns) == x + " ";
      BaseOfSpacedName(x);
    } else {
      var init, n := ns[..|ns| - 1], ns[|ns| - 1];
      var p := x + " " + Dimensions(init);
      assert ns == init + [n];
      DimensionsSnoc(init, n);
      assert x + " " + Dimensions(ns) == p + "[" + n + "]";
      NameArrayIsClean(x, ns);
      BaseOfLastDimension(p, n);
      BaseOfNameArray(x, init);
    }
  }
}
