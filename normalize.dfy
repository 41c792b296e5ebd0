/** `CleanCType` (types/resolve.go:695-732): the normal form of a C type spelling. */
module Normalize {
  import opened GoStrings

  /** The number of '(', '[' and '*' characters. No step of the normal form adds
      one, and every recursive step of the resolver removes at least one, so it
      is the measure on which the resolver terminates. */
  function Weight(s: string): nat {
    Count(s, '(') + Count(s, '[') + Count(s, '*')
  }

  /** One round of the replacements of types/resolve.go:699-725. */
  function CleanPass(s: string): string {
    var out := ReplaceAll(s, "* *", "**");
    var out := ReplaceAll(out, "*", " *");
    var out := ReplaceAll(out, "( *)", "(*)");
    var out := ReplaceAll(out, "const", "");
    var out := ReplaceAll(out, "volatile", "");
    var out := ReplaceAll(out, "__restrict", "");
    var out := ReplaceAll(out, "restrict", "");
    var out := ReplaceAll(out, "_Nullable", "");
    var out := ReplaceAll(out, "\t", "");
    var out := ReplaceAll(out, "\n", "");
    var out := ReplaceAll(out, "\r", "");
    var out := ReplaceAll(out, "* *", "**");
    var out := ReplaceAll(out, "[", " [");
    var out := ReplaceAll(out, "] [", "][");
    var out := ReplaceAll(out, "  ", " ");
    TrimSpace(out)
  }

  /** The recursion of types/resolve.go:727-729 stops once a round changes
      nothing; the model also stops after this many rounds. */
  function MaxCleanPasses(s: string): nat {
    |s| + 1
  }

  /** Rounds of `CleanPass` until one changes nothing or `fuel` runs out. */
  function CleanFrom(s: string, fuel: nat): (out: string)
    decreases fuel
    ensures '\t' !in out && '\n' !in out && '\r' !in out
    ensures Trimmed(out)
    ensures Weight(out) <= Weight(s)
    ensures forall c :: c in out ==> c in s || c == ' '
  {
    CleanPassFacts(s);
    var out := CleanPass(s);
    if out != s && fuel > 0 then CleanFrom(out, fuel - 1) else out
  }

  /** `CleanCType`. */
  function CleanCType(s: string): (out: string)
    ensures '\t' !in out && '\n' !in out && '\r' !in out
    ensures Trimmed(out)
    ensures Weight(out) <= Weight(s)
    ensures forall c :: c in out ==> c in s || c == ' '
  {
    CleanFrom(s, MaxCleanPasses(s))
  }

  /** The last round of `CleanCType(s)` changed nothing: `s` reached the fixed
      point the source recurses to. */
  predicate Settled(s: string) {
    CleanPass(CleanCType(s)) == CleanCType(s)
  }

  // ---------------------------------------------------------------------------

  /** `t` has no more '(', '[' or '*' than `s`, and no character that `s`
      lacks except spaces. */
  predicate Keeps(s: string, t: string) {
    Weight(t) <= Weight(s) && forall c :: c in t ==> c in s || c == ' '
  }

  /** A replacement step whose replacement adds no '(', '[' or '*' and only
      characters of the pattern or spaces keeps the input's characters. */
  lemma StepKeeps(s: string, pat: string, rep: string)
    requires pat != []
    requires Count(rep, '(') <= Count(pat, '(')
    requires Count(rep, '[') <= Count(pat, '[')
    requires Count(rep, '*') <= Count(pat, '*')
    requires forall c :: c in rep ==> c in pat || c == ' '
    ensures Keeps(s, ReplaceAll(s, pat, rep))
  {
    ReplaceAllCount(s, pat, rep, '(');
    ReplaceAllCount(s, pat, rep, '[');
    ReplaceAllCount(s, pat, rep, '*');
    forall c | c in ReplaceAll(s, pat, rep) ensures c in s || c == ' ' {
      ReplaceAllChars(s, pat, rep, c);
      if c !in s && c in rep && c != ' ' {
        ContainsChars(s, pat, c);
      }
    }
  }

  /** Removing a pattern keeps the input's characters. */
  lemma RemovalKeeps(s: string, pat: string)
    requires pat != []
    ensures Keeps(s, ReplaceAll(s, pat, ""))
  {
    StepKeeps(s, pat, "");
  }

  /** The replacements that move spaces around '*', '(' and '[' (lines 699-704
      and 717-722) keep the input's characters. */
  lemma SpacingStepsKeep(s: string)
    ensures Keeps(s, ReplaceAll(s, "* *", "**"))
    ensures Keeps(s, ReplaceAll(s, "*", " *"))
    ensures Keeps(s, ReplaceAll(s, "( *)", "(*)"))
    ensures Keeps(s, ReplaceAll(s, "[", " ["))
    ensures Keeps(s, ReplaceAll(s, "] [", "]["))
    ensures Keeps(s, ReplaceAll(s, "  ", " "))
  {
    StepKeeps(s, "* *", "**");
    StepKeeps(s, "*", " *");
    StepKeeps(s, "( *)", "(*)");
    StepKeeps(s, "[", " [");
    StepKeeps(s, "] [", "][");
    StepKeeps(s, "  ", " ");
  }

  lemma CleanPassFacts(s: string)
    ensures '\t' !in CleanPass(s) && '\n' !in CleanPass(s) && '\r' !in CleanPass(s)
    ensures Trimmed(CleanPass(s))
    ensures Weight(CleanPass(s)) <= Weight(s)
    ensures forall c :: c in CleanPass(s) ==> c in s || c == ' '
  {
    var o1 := ReplaceAll(s, "* *", "**");
    var o2 := ReplaceAll(o1, "*", " *");
    var o3 := ReplaceAll(o2, "( *)", "(*)");
    SpacingStepsKeep(s);
    SpacingStepsKeep(o1);
    SpacingStepsKeep(o2);
    var o4 := ReplaceAll(o3, "const", "");
    var o5 := ReplaceAll(o4, "volatile", "");
    var o6 := ReplaceAll(o5, "__restrict", "");
    var o7 := ReplaceAll(o6, "restrict", "");
    var o8 := ReplaceAll(o7, "_Nullable", "");
    RemovalKeeps(o3, "const");
    RemovalKeeps(o4, "volatile");
    RemovalKeeps(o5, "__restrict");
    RemovalKeeps(o6, "restrict");
    RemovalKeeps(o7, "_Nullable");
    var o9 := ReplaceAll(o8, "\t", "");
    var o10 := ReplaceAll(o9, "\n", "");
    var o11 := ReplaceAll(o10, "\r", "");
    RemovalKeeps(o8, "\t");
    RemovalKeeps(o9, "\n");
    RemovalKeeps(o10, "\r");
    ReplaceAllRemovesChar(o8, '\t', "");
    ReplaceAllRemovesChar(o9, '\n', "");
    ReplaceAllRemovesChar(o10, '\r', "");
    var o12 := ReplaceAll(o11, "* *", "**");
    var o13 := ReplaceAll(o12, "[", " [");
    var o14 := ReplaceAll(o13, "] [", "][");
    var o15 := ReplaceAll(o14, "  ", " ");
    SpacingStepsKeep(o11);
    SpacingStepsKeep(o12);
    SpacingStepsKeep(o13);
    SpacingStepsKeep(o14);
    assert '\t' !in o15 && '\n' !in o15 && '\r' !in o15;
    assert Keeps(s, o8);
    assert Keeps(o8, o15);
    assert CleanPass(s) == TrimSpace(o15);
    TrimSpaceTrimmed(o15);
    CountTrimSpace(o15, '(');
    CountTrimSpace(o15, '[');
    CountTrimSpace(o15, '*');
    forall c | c in TrimSpace(o15) ensures c in o15 {
      TrimSpaceChars(o15, c);
    }
  }

  /** A spelling the pass leaves alone is its own normal form. */
  lemma CleanCTypeOfFixedPoint(t: string)
    requires CleanPass(t) == t
    ensures CleanCType(t) == t
  {
  }

  /** Normalising twice is normalising once, whenever the recursion reached its
      fixed point. */
  lemma CleanCTypeIdempotent(s: string)
    requires Settled(s)
    ensures CleanCType(CleanCType(s)) == CleanCType(s)
  {
    CleanCTypeOfFixedPoint(CleanCType(s));
  }

  /** None of the characters the normal form removes or moves, and nothing to
      trim. */
  predicate PlainChars(s: string) {
    '*' !in s && '(' !in s && '[' !in s && '\t' !in s && '\n' !in s && '\r' !in s && Trimmed(s)
  }

  /** None of the words the normal form removes, and no double space. */
  predicate PlainWords(s: string) {
    !Contains(s, "const") && !Contains(s, "volatile") && !Contains(s, "__restrict")
    && !Contains(s, "restrict") && !Contains(s, "_Nullable") && !Contains(s, "  ")
  }

  /** A spelling with none of the characters or words the normal form
      rewrites is its own normal form. */
  lemma PlainIsClean(s: string)
    requires PlainChars(s) && PlainWords(s)
    ensures CleanPass(s) == s && CleanCType(s) == s
  {
    MissingChar(s, "* *", 0);
    MissingChar(s, "*", 0);
    MissingChar(s, "( *)", 0);
    MissingChar(s, "\t", 0);
    MissingChar(s, "\n", 0);
    MissingChar(s, "\r", 0);
    MissingChar(s, "[", 0);
    MissingChar(s, "] [", 2);
    ReplaceAllAbsent(s, "* *", "**");
    ReplaceAllAbsent(s, "*", " *");
    ReplaceAllAbsent(s, "( *)", "(*)");
    ReplaceAllAbsent(s, "const", "");
    ReplaceAllAbsent(s, "volatile", "");
    ReplaceAllAbsent(s, "__restrict", "");
    ReplaceAllAbsent(s, "restrict", "");
    ReplaceAllAbsent(s, "_Nullable", "");
    ReplaceAllAbsent(s, "\t", "");
    ReplaceAllAbsent(s, "\n", "");
    ReplaceAllAbsent(s, "\r", "");
    ReplaceAllAbsent(s, "[", " [");
    ReplaceAllAbsent(s, "] [", "][");
    ReplaceAllAbsent(s, "  ", " ");
    TrimSpaceOfTrimmed(s);
    assert CleanPass(s) == s;
    CleanCTypeOfFixedPoint(s);
  }

  // ---------------------------------------------------------------------------
  // Names that are already in normal form

  /** A letter, a digit, `_` or a space. */
  predicate WordChar(c: char) {
    'a' <= c <= 'z' || 'A' <= c <= 'Z' || '0' <= c <= '9' || c == '_' || c == ' '
  }

  /** Two neighbouring characters that start or sit inside none of the
      patterns the normal form rewrites: two spaces, and the pairs `ns`, `vo`,
      `re` and `_N` of `const`, `volatile`, `restrict` and `_Nullable`. */
  predicate PlainPair(a: char, b: char) {
    !(a == ' ' && b == ' ') && NoWordPair(a, b)
  }

  /** Not one of the pairs `ns`, `vo`, `re` and `_N`. */
  predicate NoWordPair(a: char, b: char) {
    !(a == 'n' && b == 's') && !(a == 'v' && b == 'o') && !(a == 'r' && b == 'e') && !(a == '_' && b == 'N')
  }

  /** None of the words the normal form deletes occurs in `s`. */
  predicate NoRemovedWord(s: string) {
    !Contains(s, "const") && !Contains(s, "volatile") && !Contains(s, "__restrict")
    && !Contains(s, "restrict") && !Contains(s, "_Nullable")
  }

  /** Without those pairs, none of the removed words occurs. */
  lemma NoRemovedWords(s: string)
    requires forall k :: 0 <= k < |s| - 1 ==> NoWordPair(s[k], s[k + 1])
    ensures NoRemovedWord(s)
  {
    WordWithoutPair(s, "const", 2);
    WordWithoutPair(s, "volatile", 0);
    WordWithoutPair(s, "__restrict", 2);
    WordWithoutPair(s, "restrict", 0);
    WordWithoutPair(s, "_Nullable", 0);
  }

  /** A word holding one of those pairs at `m` does not occur. */
  lemma WordWithoutPair(s: string, p: string, m: nat)
    requires m + 1 < |p| && !NoWordPair(p[m], p[m + 1])
    requires forall k :: 0 <= k < |s| - 1 ==> NoWordPair(s[k], s[k + 1])
    ensures !Contains(s, p)
  {
    forall j | 0 <= j < |s| - 1 ensures !(s[j] == p[m] && s[j + 1] == p[m + 1]) {
      assert NoWordPair(s[j], s[j + 1]);
    }
    MissingPair(s, p, m);
  }

  /** A name of letters, digits, `_` and single spaces, with nothing to trim
      and no pair that could start a rewritten word. */
  predicate NameSpelling(s: string) {
    s != [] && s[0] != ' ' && s[|s| - 1] != ' '
    && (forall k :: 0 <= k < |s| ==> WordChar(s[k]))
    && (forall k :: 0 <= k < |s| - 1 ==> PlainPair(s[k], s[k + 1]))
  }

  /** Such a name is its own normal form. */
  lemma NameIsClean(s: string)
    requires NameSpelling(s)
    ensures CleanPass(s) == s && CleanCType(s) == s
  {
    assert PlainChars(s) by {
      forall c | c in s ensures WordChar(c) {
        var k :| 0 <= k < |s| && s[k] == c;
      }
    }
    NoRemovedWords(s);
    MissingPair(s, "  ", 0);
    PlainIsClean(s);
  }

  /** A plain name holds none of the characters that the normal form and
      the resolver look for. */
  lemma NameChars(s: string)
    requires NameSpelling(s)
    ensures ':' !in s && '(' !in s && ')' !in s && '[' !in s && ']' !in s && '*' !in s
    ensures '\t' !in s && '\n' !in s && '\r' !in s
  {
    forall c | c in s ensures WordChar(c) {
      var k :| 0 <= k < |s| && s[k] == c;
    }
  }

  /** The space before the `*` of a pointer is trimmed away again. */
  lemma NameTrailingSpace(x: string)
    requires NameSpelling(x)
    ensures TrimSpace(x + " ") == x
  {
    assert !IsSpace(x[0]) && !IsSpace(x[|x| - 1]) by {
      assert WordChar(x[0]) && WordChar(x[|x| - 1]);
    }
    TrimTrailingSpace(x);
  }

  /** A plain name followed by ` *`, the way clang prints a pointer, is in
      normal form: the pass spaces the `*` out and then collapses the double
      space it made. */
  lemma NamePointerIsClean(x: string)
    requires NameSpelling(x)
    ensures CleanCType(x + " *") == x + " *"
  {
    var s := x + " *";
    assert CleanPass(s) == s by {
      NameChars(x);
      PointerSpacedOut(x);
      PointerSpacedChecks(x);
      PointerSpaceCollapsed(x);
      assert s[0] == x[0];
      TrimSpaceOfTrimmed(s);
    }
    CleanCTypeOfFixedPoint(s);
  }

  /** The last replacement of the pass takes `x  *` back to `x *`. */
  lemma PointerSpaceCollapsed(x: string)
    requires NameSpelling(x)
    ensures ReplaceAll(x + "  *", "  ", " ") == x + " *"
  {
    forall j | 0 <= j < |x| ensures !HasPrefix((x + "  *")[j..], "  ") {
      assert (x + "  *")[j] == x[j];
      if j + 1 < |x| {
        assert (x + "  *")[j + 1] == x[j + 1];
      }
    }
    ReplaceAllPrefixFree(x, "  *", "  ", " ");
    ReplaceAllHit("*", "  ", " ");
    MissingChar("*", "  ", 0);
    ReplaceAllAbsent("*", "  ", " ");
  }

  /** The first two replacements of the pass on `x *`. */
  lemma PointerSpacedOut(x: string)
    requires NameSpelling(x) && '*' !in x
    ensures ReplaceAll(ReplaceAll(x + " *", "* *", "**"), "*", " *") == x + "  *"
  {
    var s := x + " *";
    assert ReplaceAll(s, "* *", "**") == s by {
      forall j | 0 <= j < |s| - 1 ensures s[j] != '*' {
        if j < |x| {
          assert s[j] == x[j];
        }
      }
      MissingPair(s, "* *", 0);
      ReplaceAllAbsent(s, "* *", "**");
    }
    assert '*' !in x + " ";
    SingleStarSpaced(x + " ", "");
    assert (x + " ") + "*" + "" == s;
    assert (x + " ") + " *" + "" == x + "  *";
  }

  /** The replacements between the first two and the last two find nothing
      in `x  *`. */
  lemma PointerSpacedChecks(x: string)
    requires NameSpelling(x)
    ensures var o := x + "  *";
      && ReplaceAll(o, "( *)", "(*)") == o && ReplaceAll(o, "const", "") == o
      && ReplaceAll(o, "volatile", "") == o && ReplaceAll(o, "__restrict", "") == o
      && ReplaceAll(o, "restrict", "") == o && ReplaceAll(o, "_Nullable", "") == o
      && ReplaceAll(o, "\t", "") == o && ReplaceAll(o, "\n", "") == o && ReplaceAll(o, "\r", "") == o
      && ReplaceAll(o, "* *", "**") == o && ReplaceAll(o, "[", " [") == o && ReplaceAll(o, "] [", "][") == o
  {
    var o := x + "  *";
    NameChars(x);
    forall k | 0 <= k < |o| - 1 ensures NoWordPair(o[k], o[k + 1]) && o[k] != '*' {
      if k + 1 < |x| {
        assert o[k] == x[k] && o[k + 1] == x[k + 1];
      } else if k < |x| {
        assert o[k] == x[k];
      }
    }
    NoRemovedWords(o);
    MissingChar(o, "( *)", 0);
    MissingChar(o, "\t", 0);
    MissingChar(o, "\n", 0);
    MissingChar(o, "\r", 0);
    MissingPair(o, "* *", 0);
    MissingChar(o, "[", 0);
    MissingChar(o, "] [", 0);
    ReplaceAllAbsent(o, "( *)", "(*)");
    ReplaceAllAbsent(o, "const", "");
    ReplaceAllAbsent(o, "volatile", "");
    ReplaceAllAbsent(o, "__restrict", "");
    ReplaceAllAbsent(o, "restrict", "");
    ReplaceAllAbsent(o, "_Nullable", "");
    ReplaceAllAbsent(o, "\t", "");
    ReplaceAllAbsent(o, "\n", "");
    ReplaceAllAbsent(o, "\r", "");
    ReplaceAllAbsent(o, "* *", "**");
    ReplaceAllAbsent(o, "[", " [");
    ReplaceAllAbsent(o, "] [", "][");
  }

  // ---------------------------------------------------------------------------
  // Names followed by fixed array dimensions

  /** The space clang prints after a name is trimmed away by the first round,
      and the second round changes nothing. */
  lemma NameSpaceIsClean(x: string)
    requires NameSpelling(x)
    ensures CleanCType(x + " ") == x
  {
    var s := x + " ";
    NameChars(x);
    NameIsClean(x);
    forall k | 0 <= k < |s| - 1 ensures NoWordPair(s[k], s[k + 1]) {
      if k + 1 < |x| {
        assert s[k] == x[k] && s[k + 1] == x[k + 1];
      }
    }
    assert CleanPass(s) == TrimSpace(ReplaceAll(ReplaceAll(ReplaceAll(s, "[", " ["), "] [", "]["), "  ", " ")) by {
      SpacingOnly(s);
    }
    assert ReplaceAll(ReplaceAll(ReplaceAll(s, "[", " ["), "] [", "]["), "  ", " ") == s by {
      MissingChar(s, "[", 0);
      MissingChar(s, "] [", 0);
      ReplaceAllAbsent(s, "[", " [");
      ReplaceAllAbsent(s, "] [", "][");
      forall j | 0 <= j < |s| - 1 ensures !(s[j] == ' ' && s[j + 1] == ' ') {
        if j + 1 < |x| {
          assert s[j] == x[j] && s[j + 1] == x[j + 1];
        } else {
          assert s[j] == x[|x| - 1];
        }
      }
      MissingPair(s, "  ", 0);
      ReplaceAllAbsent(s, "  ", " ");
    }
    NameTrailingSpace(x);
  }

  /** A spelling without `*`, `(`, the removed words or control characters is
      changed by the pass only through its last three replacements and the
      trimming. */
  lemma SpacingOnly(t: string)
    requires '*' !in t && '(' !in t && '\t' !in t && '\n' !in t && '\r' !in t
    requires forall k :: 0 <= k < |t| - 1 ==> NoWordPair(t[k], t[k + 1])
    ensures CleanPass(t) == TrimSpace(ReplaceAll(ReplaceAll(ReplaceAll(t, "[", " ["), "] [", "]["), "  ", " "))
  {
    NoRemovedWords(t);
    MissingChar(t, "* *", 0);
    MissingChar(t, "*", 0);
    MissingChar(t, "( *)", 0);
    MissingChar(t, "\t", 0);
    MissingChar(t, "\n", 0);
    MissingChar(t, "\r", 0);
    ReplaceAllAbsent(t, "* *", "**");
    ReplaceAllAbsent(t, "*", " *");
    ReplaceAllAbsent(t, "( *)", "(*)");
    ReplaceAllAbsent(t, "const", "");
    ReplaceAllAbsent(t, "volatile", "");
    ReplaceAllAbsent(t, "__restrict", "");
    ReplaceAllAbsent(t, "restrict", "");
    ReplaceAllAbsent(t, "_Nullable", "");
    ReplaceAllAbsent(t, "\t", "");
    ReplaceAllAbsent(t, "\n", "");
    ReplaceAllAbsent(t, "\r", "");
  }

  /** A non-empty run of decimal digits: an array size as clang prints it. */
  predicate Digits(n: string) {
    n != [] && forall k :: 0 <= k < |n| ==> '0' <= n[k] <= '9'
  }

  /** `[n0][n1]...`: the dimensions of a fixed-size array type. */
  function Dimensions(ns: seq<string>): string {
    if ns == [] then "" else "[" + (ns[0] + ("]" + Dimensions(ns[1..])))
  }

  /** The dimensions as the replacement of line 718 spaces them out,
      ` [n0] [n1]...`. */
  function SpacedDimensions(ns: seq<string>): string {
    if ns == [] then "" else " [" + (ns[0] + ("]" + SpacedDimensions(ns[1..])))
  }

  /** Dimensions hold brackets and digits only. */
  lemma {:induction false} DimensionChars(ns: seq<string>, c: char)
    requires forall k :: 0 <= k < |ns| ==> Digits(ns[k])
    ensures c in Dimensions(ns) ==> c == '[' || c == ']' || '0' <= c <= '9'
    decreases |ns|
  {
    if ns != [] && c in Dimensions(ns) {
      var n := ns[0];
      if c in n {
        var k :| 0 <= k < |n| && n[k] == c;
        assert Digits(ns[0]);
      } else if c != '[' && c != ']' {
        DimensionChars(ns[1..], c);
      }
    }
  }

  /** Line 718 puts a space before every `[` of the dimensions. */
  lemma {:induction false} DimensionsSpacedOut(ns: seq<string>)
    requires forall k :: 0 <= k < |ns| ==> Digits(ns[k])
    ensures ReplaceAll(Dimensions(ns), "[", " [") == SpacedDimensions(ns)
    decreases |ns|
  {
    if ns != [] {
      DimensionsSpacedOut(ns[1..]);
      assert Digits(ns[0]);
      SpreadStep(ns[0], Dimensions(ns[1..]), SpacedDimensions(ns[1..]));
    }
  }

  /** One dimension spaced out ahead of the ones after it. */
  lemma SpreadStep(n: string, rest: string, sd: string)
    requires Digits(n)
    requires ReplaceAll(rest, "[", " [") == sd
    ensures ReplaceAll("[" + (n + ("]" + rest)), "[", " [") == " [" + (n + ("]" + sd))
  {
    ReplaceAllHit(n + ("]" + rest), "[", " [");
    assert '[' !in n;
    ReplaceAllSkip(n, "]" + rest, "[", " [");
    ReplaceAllSkip("]", rest, "[", " [");
  }

  /** Line 719 joins the spaced dimensions back together. */
  lemma {:induction false} DimensionsJoined(ns: seq<string>)
    requires forall k :: 0 <= k < |ns| ==> Digits(ns[k])
    ensures ReplaceAll("]" + SpacedDimensions(ns), "] [", "][") == "]" + Dimensions(ns)
    decreases |ns|
  {
    if ns == [] {
      MissingChar("]", "] [", 1);
      ReplaceAllAbsent("]", "] [", "][");
    } else {
      var n, rest, d := ns[0], SpacedDimensions(ns[1..]), Dimensions(ns[1..]);
      DimensionsJoined(ns[1..]);
      assert Digits(n);
      JoinStep(n, rest, d);
      Regrouped("]", " [", n + ("]" + rest));
      Regrouped("]", "[", n + ("]" + d));
    }
  }

  /** One dimension joined to the ones after it. */
  lemma JoinStep(n: string, rest: string, d: string)
    requires Digits(n)
    requires ReplaceAll("]" + rest, "] [", "][") == "]" + d
    ensures ReplaceAll("] [" + (n + ("]" + rest)), "] [", "][") == "][" + (n + ("]" + d))
  {
    ReplaceAllHit(n + ("]" + rest), "] [", "][");
    assert ']' !in n;
    ReplaceAllSkip(n, "]" + rest, "] [", "][");
  }

  lemma Regrouped(a: string, b: string, c: string)
    ensures a + (b + c) == (a + b) + c
  {
  }

  /** Every character of the dimensions is a bracket or a digit, and the
      last one closes a bracket. */
  lemma DimensionsPlain(ns: seq<string>)
    requires ns != [] && forall k :: 0 <= k < |ns| ==> Digits(ns[k])
    ensures BracketText(Dimensions(ns))
  {
    var d := Dimensions(ns);
    forall k | 0 <= k < |d| ensures d[k] == '[' || d[k] == ']' || '0' <= d[k] <= '9' {
      DimensionChars(ns, d[k]);
    }
    DimensionsEndInBracket(ns);
  }

  lemma {:induction false} DimensionsEndInBracket(ns: seq<string>)
    requires ns != []
    ensures var d := Dimensions(ns); d != [] && d[|d| - 1] == ']'
    decreases |ns|
  {
    if ns[1..] != [] {
      DimensionsEndInBracket(ns[1..]);
    }
  }

  /** The last dimension is the last `[n]` of the text. */
  lemma {:induction false} DimensionsSnoc(ns: seq<string>, n: string)
    ensures Dimensions(ns + [n]) == Dimensions(ns) + "[" + n + "]"
    decreases |ns|
  {
    if ns == [] {
      assert Dimensions([n]) == "[" + (n + ("]" + Dimensions([])));
    } else {
      assert (ns + [n])[1..] == ns[1..] + [n];
      DimensionsSnoc(ns[1..], n);
    }
  }

  /** A name followed by ` ` and dimensions, as clang prints a fixed-size
      array (`int [2][3]`), is in normal form: the pass spaces every `[`
      out, joins `] [` back, and collapses the double space it made after
      the name. */
  lemma NameArrayIsClean(x: string, ns: seq<string>)
    requires NameSpelling(x)
    requires ns != [] && forall k :: 0 <= k < |ns| ==> Digits(ns[k])
    ensures CleanCType(x + " " + Dimensions(ns)) == x + " " + Dimensions(ns)
  {
    var d, sd := Dimensions(ns), SpacedDimensions(ns);
    DimensionsPlain(ns);
    DimensionsSpacedOut(ns);
    SpacedHeadJoined(ns);
    ArrayPassFixed(x, d, sd);
    CleanCTypeOfFixedPoint(x + " " + d);
  }

  /** Brackets and digits, ending in `]`. */
  predicate BracketText(d: string) {
    d != [] && d[|d| - 1] == ']'
    && forall k :: 0 <= k < |d| ==> d[k] == '[' || d[k] == ']' || '0' <= d[k] <= '9'
  }

  /** The pass leaves `x d` alone when spacing out the `[` of `d` gives `sd`
      and joining `] [` in `sd` gives ` d` back. */
  lemma ArrayPassFixed(x: string, d: string, sd: string)
    requires NameSpelling(x) && BracketText(d)
    requires ReplaceAll(d, "[", " [") == sd
    requires ReplaceAll(sd, "] [", "][") == " " + d
    ensures CleanPass(x + " " + d) == x + " " + d
  {
    var t := x + " " + d;
    ArraySpacingOnly(x, d);
    SpacedOutAfterName(x, d, sd);
    JoinedAfterName(x, sd, d);
    CollapsedAfterName(x, d);
    assert t[0] == x[0] && t[|t| - 1] == d[|d| - 1];
    TrimSpaceOfTrimmed(t);
  }

  /** Only the spacing steps of the pass touch such an array spelling. */
  lemma ArraySpacingOnly(x: string, d: string)
    requires NameSpelling(x) && BracketText(d)
    ensures var t := x + " " + d;
      CleanPass(t) == TrimSpace(ReplaceAll(ReplaceAll(ReplaceAll(t, "[", " ["), "] [", "]["), "  ", " "))
  {
    ArrayTextPlain(x, d);
    SpacingOnly(x + " " + d);
  }

  lemma ArrayTextPlain(x: string, d: string)
    requires NameSpelling(x) && BracketText(d)
    ensures var t := x + " " + d;
      '*' !in t && '(' !in t && '\t' !in t && '\n' !in t && '\r' !in t
      && forall k :: 0 <= k < |t| - 1 ==> NoWordPair(t[k], t[k + 1])
  {
    var t := x + " " + d;
    NameChars(x);
    forall k | 0 <= k < |t| ensures t[k] != '*' && t[k] != '(' && t[k] != '\t' && t[k] != '\n' && t[k] != '\r' {
      if k < |x| {
        assert t[k] == x[k] && t[k] in x;
      } else if k > |x| {
        assert t[k] == d[k - |x| - 1];
      }
    }
    forall k | 0 <= k < |t| - 1 ensures NoWordPair(t[k], t[k + 1]) {
      if k + 1 < |x| {
        assert t[k] == x[k] && t[k + 1] == x[k + 1];
      } else if k + 1 > |x| {
        assert t[k + 1] == d[k - |x|];
      }
    }
  }

  /** Line 718 after the name. */
  lemma SpacedOutAfterName(x: string, d: string, sd: string)
    requires NameSpelling(x) && ReplaceAll(d, "[", " [") == sd
    ensures ReplaceAll(x + " " + d, "[", " [") == x + " " + sd
  {
    NameChars(x);
    assert '[' !in x + " ";
    ReplaceAllSkip(x + " ", d, "[", " [");
  }

  /** Line 719 after the name. */
  lemma JoinedAfterName(x: string, sd: string, d: string)
    requires NameSpelling(x) && ReplaceAll(sd, "] [", "][") == " " + d
    ensures ReplaceAll(x + " " + sd, "] [", "][") == x + " " + (" " + d)
  {
    NameChars(x);
    assert ']' !in x + " ";
    ReplaceAllSkip(x + " ", sd, "] [", "][");
  }

  /** Line 722 after the name. */
  lemma CollapsedAfterName(x: string, d: string)
    requires NameSpelling(x) && BracketText(d)
    ensures ReplaceAll(x + " " + (" " + d), "  ", " ") == x + " " + d
  {
    var c := "  " + d;
    assert x + " " + (" " + d) == x + c;
    DoubleSpaceAfterName(x, c);
    ReplaceAllHit(d, "  ", " ");
    assert ' ' !in d;
    MissingChar(d, "  ", 0);
    ReplaceAllAbsent(d, "  ", " ");
    Regrouped(x, " ", d);
  }

  /** A name holds no double space and does not end in a space, so no double
      space starts inside it, whatever follows. */
  lemma DoubleSpaceAfterName(x: string, c: string)
    requires NameSpelling(x)
    ensures ReplaceAll(x + c, "  ", " ") == x + ReplaceAll(c, "  ", " ")
  {
    forall j | 0 <= j < |x| ensures !HasPrefix((x + c)[j..], "  ") {
      assert (x + c)[j] == x[j];
      if j + 1 < |x| {
        assert (x + c)[j + 1] == x[j + 1];
      }
    }
    ReplaceAllPrefixFree(x, c, "  ", " ");
  }

  /** Line 719 on all the spaced dimensions. */
  lemma SpacedHeadJoined(ns: seq<string>)
    requires ns != [] && forall k :: 0 <= k < |ns| ==> Digits(ns[k])
    ensures ReplaceAll(SpacedDimensions(ns), "] [", "][") == " " + Dimensions(ns)
  {
    DimensionsJoined(ns[1..]);
    assert Digits(ns[0]);
    HeadStep(ns[0], SpacedDimensions(ns[1..]), Dimensions(ns[1..]));
  }

  lemma HeadStep(n: string, rest: string, d: string)
    requires Digits(n)
    requires ReplaceAll("]" + rest, "] [", "][") == "]" + d
    ensures ReplaceAll(" [" + (n + ("]" + rest)), "] [", "][") == " " + ("[" + (n + ("]" + d)))
  {
    ReplaceAllSkip(" [", n + ("]" + rest), "] [", "][");
    assert ']' !in n;
    ReplaceAllSkip(n, "]" + rest, "] [", "][");
    Regrouped(" ", "[", n + ("]" + d));
  }

  // ---------------------------------------------------------------------------
  // Pointers to functions

  /** A parameter list of plain names separated by commas, as clang prints
      `int, float`. */
  predicate ParameterText(a: string) {
    (forall k :: 0 <= k < |a| ==> WordChar(a[k]) || a[k] == ',')
    && PlainPairs(a)
  }

  predicate PlainPairs(s: string) {
    forall k :: 0 <= k < |s| - 1 ==> PlainPair(s[k], s[k + 1])
  }

  lemma ParameterChars(a: string)
    requires ParameterText(a)
    ensures ':' !in a && '(' !in a && ')' !in a && '[' !in a && ']' !in a && '*' !in a
    ensures '\t' !in a && '\n' !in a && '\r' !in a
  {
    forall c | c in a ensures WordChar(c) || c == ',' {
      var k :| 0 <= k < |a| && a[k] == c;
    }
  }

  /** A plain name is a parameter list of one parameter. */
  lemma NameIsParameter(x: string)
    requires NameSpelling(x)
    ensures ParameterText(x)
  {
  }

  /** Two parameter lists with a plain pair where they meet make one. */
  lemma ParameterJoin(a: string, b: string)
    requires ParameterText(a) && ParameterText(b)
    requires a != [] && b != [] ==> PlainPair(a[|a| - 1], b[0])
    ensures ParameterText(a + b)
  {
    PlainPairsJoin(a, b);
    forall k | 0 <= k < |a + b| ensures WordChar((a + b)[k]) || (a + b)[k] == ',' {
      if k < |a| {
        assert (a + b)[k] == a[k];
      } else {
        assert (a + b)[k] == b[k - |a|];
      }
    }
  }

  lemma PlainPairsJoin(a: string, b: string)
    requires PlainPairs(a) && PlainPairs(b)
    requires a != [] && b != [] ==> PlainPair(a[|a| - 1], b[0])
    ensures PlainPairs(a + b)
  {
    forall k | 0 <= k < |a + b| - 1 ensures PlainPair((a + b)[k], (a + b)[k + 1]) {
      if k + 1 < |a| {
        assert (a + b)[k] == a[k] && (a + b)[k + 1] == a[k + 1];
      } else if k + 1 == |a| {
        assert (a + b)[k] == a[|a| - 1] && (a + b)[k + 1] == b[0];
      } else {
        assert (a + b)[k] == b[k - |a|] && (a + b)[k + 1] == b[k - |a| + 1];
      }
    }
  }

  /** No neighbouring pair of `r (*)(args)` starts a rewritten word or is a
      double space. */
  lemma FunctionPointerPairs(r: string, args: string)
    requires NameSpelling(r) && ParameterText(args)
    ensures PlainPairs(r + " (*)(" + args + ")")
  {
    assert PlainPairs(" (*)(");
    PlainPairsJoin(r, " (*)(");
    PlainPairsJoin(r + " (*)(", args);
    PlainPairsJoin(r + " (*)(" + args, ")");
  }

  /** A single `*` followed by no space: there is no `* *` to join. */
  lemma SingleStarAlone(a: string, b: string)
    requires '*' !in a && '*' !in b && b != [] && b[0] != ' '
    ensures ReplaceAll(a + "*" + b, "* *", "**") == a + "*" + b
  {
    var s := a + "*" + b;
    forall j | 0 <= j < |s| - 1 ensures !(s[j] == '*' && s[j + 1] == ' ') {
      if j < |a| {
        assert s[j] == a[j];
      } else if j > |a| {
        assert s[j] == b[j - |a| - 1];
      } else {
        assert s[j + 1] == b[0];
      }
    }
    MissingPair(s, "* *", 0);
    ReplaceAllAbsent(s, "* *", "**");
  }

  /** The single `*` is spaced out. */
  lemma SingleStarSpaced(a: string, b: string)
    requires '*' !in a && '*' !in b
    ensures ReplaceAll(a + "*" + b, "*", " *") == a + " *" + b
  {
    assert a + "*" + b == a + ("*" + b);
    ReplaceAllSkip(a, "*" + b, "*", " *");
    ReplaceAllHit(b, "*", " *");
    MissingChar(b, "*", 0);
    ReplaceAllAbsent(b, "*", " *");
    assert a + (" *" + b) == a + " *" + b;
  }

  /** The one `( *)` the spacing made is taken back to `(*)`. */
  lemma GroupRestored(p: string, c: string)
    requires '(' !in p && '*' !in c
    ensures ReplaceAll(p + "( *)" + c, "( *)", "(*)") == p + "(*)" + c
  {
    assert p + "( *)" + c == p + ("( *)" + c);
    ReplaceAllSkip(p, "( *)" + c, "( *)", "(*)");
    ReplaceAllHit(c, "( *)", "(*)");
    MissingChar(c, "( *)", 2);
    ReplaceAllAbsent(c, "( *)", "(*)");
    assert p + ("(*)" + c) == p + "(*)" + c;
  }

  /** The first three replacements of the pass leave `r (*)(args)` as it
      is: `*` is spaced out to `( *)` and line 704 takes it back. */
  lemma FunctionPointerSpaced(r: string, args: string)
    requires NameSpelling(r) && ParameterText(args)
    ensures var s := r + " (*)(" + args + ")";
      ReplaceAll(ReplaceAll(ReplaceAll(s, "* *", "**"), "*", " *"), "( *)", "(*)") == s
  {
    var a, b, c := r + " (", ")(" + args + ")", "(" + args + ")";
    NameChars(r);
    ParameterChars(args);
    FunctionPointerPieces(r, args);
    SingleStarAlone(a, b);
    SingleStarSpaced(a, b);
    GroupRestored(r + " ", c);
  }

  /** How `r (*)(args)` is cut around its `*` before and after the spacing. */
  lemma FunctionPointerPieces(r: string, args: string)
    ensures r + " (*)(" + args + ")" == (r + " (") + "*" + (")(" + args + ")")
    ensures (r + " (") + " *" + (")(" + args + ")") == (r + " ") + "( *)" + ("(" + args + ")")
    ensures (r + " ") + "(*)" + ("(" + args + ")") == r + " (*)(" + args + ")"
  {
  }

  /** Text with no pair that starts a rewritten word or joins, no double
      space and none of the characters the pass removes or spaces out. */
  predicate QuietText(s: string) {
    PlainPairs(s) && '\t' !in s && '\n' !in s && '\r' !in s && '[' !in s && ']' !in s
    && forall k :: 0 <= k < |s| - 1 ==> !(s[k] == '*' && s[k + 1] == ' ')
  }

  /** The replacements after the first three find nothing in such text. */
  lemma QuietUnchanged(s: string)
    requires QuietText(s)
    ensures ReplaceAll(s, "const", "") == s && ReplaceAll(s, "volatile", "") == s
      && ReplaceAll(s, "__restrict", "") == s && ReplaceAll(s, "restrict", "") == s
      && ReplaceAll(s, "_Nullable", "") == s && ReplaceAll(s, "\t", "") == s
      && ReplaceAll(s, "\n", "") == s && ReplaceAll(s, "\r", "") == s
      && ReplaceAll(s, "* *", "**") == s && ReplaceAll(s, "[", " [") == s
      && ReplaceAll(s, "] [", "][") == s && ReplaceAll(s, "  ", " ") == s
  {
    QuietWords(s);
    QuietMarks(s);
  }

  lemma QuietWords(s: string)
    requires QuietText(s)
    ensures ReplaceAll(s, "const", "") == s && ReplaceAll(s, "volatile", "") == s
      && ReplaceAll(s, "__restrict", "") == s && ReplaceAll(s, "restrict", "") == s
      && ReplaceAll(s, "_Nullable", "") == s
  {
    assert forall k :: 0 <= k < |s| - 1 ==> NoWordPair(s[k], s[k + 1]);
    NoRemovedWords(s);
    ReplaceAllAbsent(s, "const", "");
    ReplaceAllAbsent(s, "volatile", "");
    ReplaceAllAbsent(s, "__restrict", "");
    ReplaceAllAbsent(s, "restrict", "");
    ReplaceAllAbsent(s, "_Nullable", "");
  }

  lemma QuietMarks(s: string)
    requires QuietText(s)
    ensures ReplaceAll(s, "\t", "") == s && ReplaceAll(s, "\n", "") == s && ReplaceAll(s, "\r", "") == s
      && ReplaceAll(s, "* *", "**") == s && ReplaceAll(s, "[", " [") == s
      && ReplaceAll(s, "] [", "][") == s && ReplaceAll(s, "  ", " ") == s
  {
    assert forall k :: 0 <= k < |s| - 1 ==> !(s[k] == ' ' && s[k + 1] == ' ');
    MissingPair(s, "  ", 0);
    MissingPair(s, "* *", 0);
    MissingChar(s, "\t", 0);
    MissingChar(s, "\n", 0);
    MissingChar(s, "\r", 0);
    MissingChar(s, "[", 0);
    MissingChar(s, "] [", 0);
    ReplaceAllAbsent(s, "\t", "");
    ReplaceAllAbsent(s, "\n", "");
    ReplaceAllAbsent(s, "\r", "");
    ReplaceAllAbsent(s, "* *", "**");
    ReplaceAllAbsent(s, "[", " [");
    ReplaceAllAbsent(s, "] [", "][");
    ReplaceAllAbsent(s, "  ", " ");
  }

  /** `r (*)(args)` is such text. */
  lemma FunctionPointerQuiet(r: string, args: string)
    requires NameSpelling(r) && ParameterText(args)
    ensures QuietText(r + " (*)(" + args + ")")
  {
    var s := r + " (*)(" + args + ")";
    NameChars(r);
    ParameterChars(args);
    FunctionPointerPairs(r, args);
    forall j | 0 <= j < |s| - 1 ensures !(s[j] == '*' && s[j + 1] == ' ') {
      assert PlainPair(s[j], s[j + 1]);
      if s[j] == '*' {
        assert j == |r| + 2;
      }
    }
  }

  /** A text the first three replacements leave alone, quiet for the rest,
      with nothing to trim, is a fixed point of the pass. */
  lemma QuietFixedPoint(s: string)
    requires ReplaceAll(ReplaceAll(ReplaceAll(s, "* *", "**"), "*", " *"), "( *)", "(*)") == s
    requires QuietText(s) && Trimmed(s)
    ensures CleanPass(s) == s
  {
    QuietUnchanged(s);
    TrimSpaceOfTrimmed(s);
  }

  /** A pointer to a function as clang prints it, `r (*)(args)` with a plain
      return name and plain parameter names, is in normal form. */
  lemma FunctionPointerIsClean(r: string, args: string)
    requires NameSpelling(r) && ParameterText(args)
    ensures CleanCType(r + " (*)(" + args + ")") == r + " (*)(" + args + ")"
  {
    var s := r + " (*)(" + args + ")";
    FunctionPointerSpaced(r, args);
    FunctionPointerQuiet(r, args);
    assert s[0] == r[0] && WordChar(r[0]) && s[|s| - 1] == ')';
    QuietFixedPoint(s);
    CleanCTypeOfFixedPoint(s);
  }
}
