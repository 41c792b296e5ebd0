/** Models of the functions of Go's `strings` and `bytes` packages that the type
    resolver calls, over strings seen as sequences of characters. For the ASCII
    spellings clang prints, a Go byte index and a character index coincide. */
module GoStrings {

  /** The white space `strings.TrimSpace` removes, restricted to ASCII. */
  predicate IsSpace(c: char) {
    c == ' ' || c == '\t' || c == '\n' || c == '\r' || c == '\U{000B}' || c == '\U{000C}'
  }

  /** `strings.HasPrefix`. */
  predicate HasPrefix(s: string, p: string) {
    |p| <= |s| && s[..|p|] == p
  }

  /** `strings.HasSuffix`. */
  predicate HasSuffix(s: string, p: string) {
    |p| <= |s| && s[|s| - |p|..] == p
  }

  /** `strings.Contains`: `p` occurs somewhere in `s`. */
  predicate Contains(s: string, p: string)
    decreases |s|
  {
    HasPrefix(s, p) || (|s| > 0 && Contains(s[1..], p))
  }

  /** `strings.Index`: the first position of `p` in `s`, or -1. */
  function IndexOf(s: string, p: string): (k: int)
    decreases |s|
    ensures k >= 0 <==> Contains(s, p)
    ensures k >= 0 ==> k + |p| <= |s| && s[k..k + |p|] == p
    ensures k >= 0 ==> forall j :: 0 <= j < k ==> !HasPrefix(s[j..], p)
    ensures k < 0 ==> k == -1
  {
    if HasPrefix(s, p) then 0
    else if |s| == 0 then -1
    else
      var k := IndexOf(s[1..], p);
      if k < 0 then -1
      else
        assert forall j :: 1 <= j <= k ==> s[j..] == s[1..][j - 1..];
        k + 1
  }

  /** The number of occurrences of the character `c` in `s`
      (`strings.Count` with a one-character pattern). */
  function Count(s: string, c: char): nat
  {
    if s == [] then 0 else (if s[0] == c then 1 else 0) + Count(s[1..], c)
  }

  /** `strings.ContainsAny`: some character of `chars` occurs in `s`. */
  function ContainsAny(s: string, chars: string): (r: bool)
    ensures r <==> exists i :: 0 <= i < |s| && s[i] in chars
  {
    if s == [] then false
    else if s[0] in chars then true
    else
      var r := ContainsAny(s[1..], chars);
      assert forall i :: 1 <= i < |s| ==> s[i] == s[1..][i - 1];
      r
  }

  /** `strings.Replace(s, pat, rep, -1)`: every non-overlapping occurrence of
      `pat`, found from left to right, is replaced by `rep`. */
  function ReplaceAll(s: string, pat: string, rep: string): string
    requires pat != []
    decreases |s|
  {
    if |s| < |pat| then s
    else if HasPrefix(s, pat) then rep + ReplaceAll(s[|pat|..], pat, rep)
    else [s[0]] + ReplaceAll(s[1..], pat, rep)
  }

  /** `strings.Replace(s, pat, rep, 1)` and `bytes.Replace(s, pat, rep, 1)`:
      only the first occurrence is replaced. */
  function ReplaceFirst(s: string, pat: string, rep: string): string
  {
    var k := IndexOf(s, pat);
    if k < 0 then s else s[..k] + rep + s[k + |pat|..]
  }

  /** Leading white space removed. */
  function TrimLeft(s: string): (r: string)
    ensures |r| <= |s|
    ensures r != [] ==> !IsSpace(r[0])
    ensures s != [] && !IsSpace(s[0]) ==> r == s
  {
    if s != [] && IsSpace(s[0]) then TrimLeft(s[1..]) else s
  }

  /** Trailing white space removed. */
  function TrimRight(s: string): (r: string)
    ensures |r| <= |s|
    ensures r != [] ==> !IsSpace(r[|r| - 1])
    ensures s != [] && !IsSpace(s[|s| - 1]) ==> r == s
  {
    if s != [] && IsSpace(s[|s| - 1]) then TrimRight(s[..|s| - 1]) else s
  }

  /** `strings.TrimSpace`. */
  function TrimSpace(s: string): (r: string)
  {
    TrimRight(TrimLeft(s))
  }

  /** A string with no white space at either end: what `TrimSpace` returns. */
  predicate Trimmed(s: string) {
    s == [] || (!IsSpace(s[0]) && !IsSpace(s[|s| - 1]))
  }

  /** The elements of `xs` separated by `sep`, as `strings.Join` does. */
  function Join(xs: seq<string>, sep: string): string
  {
    if |xs| == 0 then "" else if |xs| == 1 then xs[0] else xs[0] + sep + Join(xs[1..], sep)
  }

  /** Joining one more element appends the separator and the element. */
  lemma {:induction false} JoinSnoc(xs: seq<string>, x: string, sep: string)
    requires xs != []
    ensures Join(xs + [x], sep) == Join(xs, sep) + sep + x
    decreases |xs|
  {
    if |xs| > 1 {
      assert (xs + [x])[1..] == xs[1..] + [x];
      JoinSnoc(xs[1..], x, sep);
    }
  }

  // ---------------------------------------------------------------------------
  // Counting characters

  lemma {:induction false} CountAppend(a: string, b: string, c: char)
    ensures Count(a + b, c) == Count(a, c) + Count(b, c)
  {
    if a == [] {
      assert a + b == b;
    } else {
      assert (a + b)[1..] == a[1..] + b;
      CountAppend(a[1..], b, c);
    }
  }

  lemma {:induction false} CountAbsent(s: string, c: char)
    ensures c !in s <==> Count(s, c) == 0
  {
    if s != [] {
      CountAbsent(s[1..], c);
      assert s == [s[0]] + s[1..];
    }
  }

  /** A slice never holds more of a character than the whole string. */
  lemma CountSlice(s: string, i: nat, j: nat, c: char)
    requires i <= j <= |s|
    ensures Count(s[i..j], c) <= Count(s, c)
    ensures Count(s, c) == Count(s[..i], c) + Count(s[i..], c)
  {
    assert s == s[..i] + s[i..];
    CountAppend(s[..i], s[i..], c);
    assert s[i..] == s[i..j] + s[j..];
    CountAppend(s[i..j], s[j..], c);
  }

  /** What `TrimLeft` keeps is a suffix. */
  lemma {:induction false} TrimLeftSuffix(s: string)
    ensures TrimLeft(s) == s[|s| - |TrimLeft(s)|..]
    decreases |s|
  {
    if s != [] && IsSpace(s[0]) {
      TrimLeftSuffix(s[1..]);
    }
  }

  /** What `TrimRight` keeps is a prefix. */
  lemma {:induction false} TrimRightPrefix(s: string)
    ensures TrimRight(s) == s[..|TrimRight(s)|]
    decreases |s|
  {
    if s != [] && IsSpace(s[|s| - 1]) {
      TrimRightPrefix(s[..|s| - 1]);
    }
  }

  lemma CountTrimSpace(s: string, c: char)
    ensures Count(TrimSpace(s), c) <= Count(s, c)
  {
    var l := TrimLeft(s);
    TrimLeftSuffix(s);
    TrimRightPrefix(l);
    CountSlice(s, |s| - |l|, |s|, c);
    CountSlice(l, 0, |TrimRight(l)|, c);
  }

  lemma CountReplaceFirst(s: string, pat: string, rep: string, c: char)
    requires Count(rep, c) <= Count(pat, c)
    ensures Count(ReplaceFirst(s, pat, rep), c) <= Count(s, c)
  {
    var k := IndexOf(s, pat);
    if k >= 0 {
      var before := s[..k];
      var after := s[k + |pat|..];
      assert s == (before + pat) + after;
      CountAppend(before + pat, after, c);
      CountAppend(before, pat, c);
      assert ReplaceFirst(s, pat, rep) == (before + rep) + after;
      CountAppend(before + rep, after, c);
      CountAppend(before, rep, c);
    }
  }

  // ---------------------------------------------------------------------------
  // Properties of ReplaceAll

  /** Replacing `pat` by a string that holds no more `c`s than `pat` never adds
      a `c`; with as many it keeps their number; with fewer, and an occurrence
      present, it removes at least one. */
  lemma {:induction false} ReplaceAllCount(s: string, pat: string, rep: string, c: char)
    requires pat != []
    ensures Count(rep, c) <= Count(pat, c) ==> Count(ReplaceAll(s, pat, rep), c) <= Count(s, c)
    ensures Count(rep, c) == Count(pat, c) ==> Count(ReplaceAll(s, pat, rep), c) == Count(s, c)
    ensures Count(rep, c) < Count(pat, c) && Contains(s, pat) ==> Count(ReplaceAll(s, pat, rep), c) < Count(s, c)
    decreases |s|
  {
    if |s| < |pat| {
      if Contains(s, pat) {
        assert !HasPrefix(s, pat) && s != [];
        ContainsShort(s[1..], pat);
      }
    } else if HasPrefix(s, pat) {
      ReplaceAllCount(s[|pat|..], pat, rep, c);
      assert s == pat + s[|pat|..];
      CountAppend(pat, s[|pat|..], c);
      CountAppend(rep, ReplaceAll(s[|pat|..], pat, rep), c);
    } else {
      ReplaceAllCount(s[1..], pat, rep, c);
      assert s == [s[0]] + s[1..];
      CountAppend([s[0]], ReplaceAll(s[1..], pat, rep), c);
    }
  }

  lemma {:induction false} ContainsShort(s: string, p: string)
    requires |s| < |p|
    ensures !Contains(s, p)
    decreases |s|
  {
    if s != [] {
      ContainsShort(s[1..], p);
    }
  }

  /** Every character of the result comes from `s`, or from `rep` when an
      occurrence of `pat` was replaced. */
  lemma {:induction false} ReplaceAllChars(s: string, pat: string, rep: string, c: char)
    requires pat != []
    ensures c in ReplaceAll(s, pat, rep) ==> c in s || (c in rep && Contains(s, pat))
    decreases |s|
  {
    if |s| < |pat| {
    } else if HasPrefix(s, pat) {
      ReplaceAllChars(s[|pat|..], pat, rep, c);
    } else {
      ReplaceAllChars(s[1..], pat, rep, c);
      if c in ReplaceAll(s[1..], pat, rep) && !(c in s[1..]) {
        assert Contains(s[1..], pat);
      }
    }
  }

  /** The characters of an occurring pattern occur in the string. */
  lemma {:induction false} ContainsChars(s: string, p: string, c: char)
    requires Contains(s, p) && c in p
    ensures c in s
    decreases |s|
  {
    if HasPrefix(s, p) {
      var i :| 0 <= i < |p| && p[i] == c;
      assert s[..|p|][i] == c;
    } else {
      ContainsChars(s[1..], p, c);
    }
  }

  /** Replacing a one-character pattern removes that character everywhere. */
  lemma {:induction false} ReplaceAllRemovesChar(s: string, c: char, rep: string)
    requires c !in rep
    ensures c !in ReplaceAll(s, [c], rep)
    decreases |s|
  {
    if |s| >= 1 {
      ReplaceAllRemovesChar(s[1..], c, rep);
    }
  }

  /** Without an occurrence of `pat` there is nothing to replace. */
  lemma {:induction false} ReplaceAllAbsent(s: string, pat: string, rep: string)
    requires pat != [] && !Contains(s, pat)
    ensures ReplaceAll(s, pat, rep) == s
    decreases |s|
  {
    if |s| >= |pat| {
      ReplaceAllAbsent(s[1..], pat, rep);
    }
  }

  /** A pattern with a character that `s` lacks does not occur in `s`. */
  lemma {:induction false} MissingChar(s: string, p: string, k: nat)
    requires k < |p| && p[k] !in s
    ensures !Contains(s, p)
    decreases |s|
  {
    if s != [] {
      MissingChar(s[1..], p, k);
    }
  }

  /** A stretch without the first character of `pat` is copied unchanged. */
  lemma {:induction false} ReplaceAllSkip(a: string, b: string, pat: string, rep: string)
    requires pat != [] && pat[0] !in a
    ensures ReplaceAll(a + b, pat, rep) == a + ReplaceAll(b, pat, rep)
    decreases |a|
  {
    if a != [] {
      assert (a + b)[0] == a[0];
      assert (a + b)[1..] == a[1..] + b;
      if |a + b| >= |pat| {
        assert !HasPrefix(a + b, pat);
      } else {
        ContainsShort(b, pat);
        ReplaceAllAbsent(b, pat, rep);
      }
      ReplaceAllSkip(a[1..], b, pat, rep);
    } else {
      assert a + b == b;
    }
  }

  /** An occurrence at the front is replaced and the scan goes on after it. */
  lemma ReplaceAllHit(b: string, pat: string, rep: string)
    requires pat != []
    ensures ReplaceAll(pat + b, pat, rep) == rep + ReplaceAll(b, pat, rep)
  {
    assert (pat + b)[..|pat|] == pat;
    assert (pat + b)[|pat|..] == b;
  }

  /** A character that starts no occurrence is copied and the scan moves on. */
  lemma ReplaceAllMiss(c: char, b: string, pat: string, rep: string)
    requires pat != [] && !HasPrefix([c] + b, pat)
    ensures ReplaceAll([c] + b, pat, rep) == [c] + ReplaceAll(b, pat, rep)
  {
    assert ([c] + b)[1..] == b;
    if |[c] + b| < |pat| {
      ContainsShort(b, pat);
      ReplaceAllAbsent(b, pat, rep);
    }
  }

  /** Replacing a single character by a single character changes exactly the
      positions that hold it. */
  lemma {:induction false} ReplaceAllChar(s: string, c: char, d: char)
    ensures |ReplaceAll(s, [c], [d])| == |s|
    ensures forall k :: 0 <= k < |s| ==> ReplaceAll(s, [c], [d])[k] == if s[k] == c then d else s[k]
    decreases |s|
  {
    if s != [] {
      ReplaceAllChar(s[1..], c, d);
      assert s[|[c]|..] == s[1..];
      var rest := ReplaceAll(s[1..], [c], [d]);
      var head := if s[0] == c then d else s[0];
      assert ReplaceAll(s, [c], [d]) == [head] + rest;
      forall k | 0 <= k < |s| ensures ReplaceAll(s, [c], [d])[k] == if s[k] == c then d else s[k] {
        if k > 0 {
          assert s[k] == s[1..][k - 1];
        }
      }
    }
  }

  /** An occurrence at position `k` is an occurrence. */
  lemma {:induction false} ContainsAt(s: string, p: string, k: nat)
    requires k + |p| <= |s| && s[k..k + |p|] == p
    ensures Contains(s, p)
    decreases k
  {
    if k > 0 {
      assert s[1..][k - 1..k - 1 + |p|] == s[k..k + |p|];
      ContainsAt(s[1..], p, k - 1);
    } else {
      assert s[..|p|] == p;
    }
  }

  /** An occurrence at `k` with none before it is what `strings.Index` finds. */
  lemma {:induction false} IndexAt(s: string, p: string, k: nat)
    requires k + |p| <= |s| && s[k..k + |p|] == p
    requires forall j :: 0 <= j < k ==> !HasPrefix(s[j..], p)
    ensures IndexOf(s, p) == k
    decreases k
  {
    if k == 0 {
      assert s[..|p|] == p;
    } else {
      assert s[0..] == s;
      assert s[1..][k - 1..k - 1 + |p|] == s[k..k + |p|];
      forall j | 0 <= j < k - 1 ensures !HasPrefix(s[1..][j..], p) {
        assert s[1..][j..] == s[j + 1..];
      }
      IndexAt(s[1..], p, k - 1);
    }
  }

  /** An occurrence at `k` is the first when no earlier character starts the
      pattern. */
  lemma IndexAtFirstChar(s: string, p: string, k: nat)
    requires p != [] && k + |p| <= |s| && s[k..k + |p|] == p
    requires forall j :: 0 <= j < k ==> s[j] != p[0]
    ensures IndexOf(s, p) == k
  {
    forall j | 0 <= j < k ensures !HasPrefix(s[j..], p) {
      assert s[j..][0] == s[j];
    }
    IndexAt(s, p, k);
  }

  /** An occurrence in `a + c` lies within `a` when `c` holds no character of
      the pattern. */
  lemma ContainsInPrefix(a: string, c: string, p: string)
    requires p != [] && forall k :: 0 <= k < |c| ==> c[k] !in p
    ensures Contains(a + c, p) ==> Contains(a, p)
  {
    if Contains(a + c, p) {
      var k := IndexOf(a + c, p);
      assert (a + c)[k..k + |p|][|p| - 1] == p[|p| - 1];
      assert k + |p| <= |a|;
      assert a[k..k + |p|] == (a + c)[k..k + |p|];
      ContainsAt(a, p, k);
    }
  }

  /** A stretch where no occurrence of `pat` starts is copied unchanged. */
  lemma {:induction false} ReplaceAllPrefixFree(a: string, c: string, pat: string, rep: string)
    requires pat != []
    requires forall j :: 0 <= j < |a| ==> !HasPrefix((a + c)[j..], pat)
    ensures ReplaceAll(a + c, pat, rep) == a + ReplaceAll(c, pat, rep)
    decreases |a|
  {
    if a != [] {
      var t := a[1..] + c;
      assert a + c == [a[0]] + t;
      assert (a + c)[0..] == a + c;
      ReplaceAllMiss(a[0], t, pat, rep);
      forall j | 0 <= j < |a[1..]| ensures !HasPrefix(t[j..], pat) {
        assert t[j..] == (a + c)[j + 1..];
      }
      ReplaceAllPrefixFree(a[1..], c, pat, rep);
      assert [a[0]] + (a[1..] + ReplaceAll(c, pat, rep)) == a + ReplaceAll(c, pat, rep);
    } else {
      assert a + c == c;
    }
  }

  /** A pattern with two neighbouring characters that never stand side by side
      in `s` does not occur in `s`. */
  lemma {:induction false} MissingPair(s: string, p: string, m: nat)
    requires m + 1 < |p|
    requires forall j :: 0 <= j < |s| - 1 ==> !(s[j] == p[m] && s[j + 1] == p[m + 1])
    ensures !Contains(s, p)
    decreases |s|
  {
    if s != [] {
      if |p| <= |s| {
        assert !(s[m] == p[m] && s[m + 1] == p[m + 1]);
        assert s[..|p|][m] == s[m];
      }
      forall j | 0 <= j < |s[1..]| - 1 ensures !(s[1..][j] == p[m] && s[1..][j + 1] == p[m + 1]) {
        assert s[1..][j] == s[j + 1] && s[1..][j + 1] == s[j + 2];
      }
      MissingPair(s[1..], p, m);
    }
  }

  // ---------------------------------------------------------------------------
  // Properties of TrimSpace

  lemma TrimSpaceTrimmed(s: string)
    ensures Trimmed(TrimSpace(s))
  {
    var l := TrimLeft(s);
    var r := TrimRight(l);
    TrimRightPrefix(l);
    if r != [] {
      assert r[0] == l[0];
    }
  }

  lemma TrimSpaceOfTrimmed(s: string)
    requires Trimmed(s)
    ensures TrimSpace(s) == s
  {
  }

  /** Trimming keeps every character that is not at an end. */
  lemma TrimSpaceChars(s: string, c: char)
    ensures c in TrimSpace(s) ==> c in s
  {
    var l := TrimLeft(s);
    TrimLeftSuffix(s);
    var r := TrimRight(l);
    TrimRightPrefix(l);
    if c in r {
      var i :| 0 <= i < |r| && r[i] == c;
      assert l[i] == c;
    }
  }

  /** A trailing space after a trimmed spelling is trimmed away. */
  lemma TrimTrailingSpace(b: string)
    requires b != [] && Trimmed(b)
    ensures TrimSpace(b + " ") == b
  {
    assert (b + " ")[..|b|] == b;
  }

  /** Trimming a string whose first character is not white space leaves it
      non-empty. */
  lemma TrimSpaceNonEmpty(s: string)
    requires s != [] && !IsSpace(s[0])
    ensures TrimSpace(s) != [] && TrimSpace(s)[0] == s[0]
  {
    assert TrimLeft(s) == s;
    TrimRightKeepsFirst(s);
  }

  lemma {:induction false} TrimRightKeepsFirst(s: string)
    requires s != [] && !IsSpace(s[0])
    ensures TrimRight(s) != [] && TrimRight(s)[0] == s[0]
    decreases |s|
  {
    if IsSpace(s[|s| - 1]) {
      TrimRightKeepsFirst(s[..|s| - 1]);
    }
  }

  lemma TrimSpaceIdempotent(s: string)
    ensures TrimSpace(TrimSpace(s)) == TrimSpace(s)
  {
    TrimSpaceTrimmed(s);
  }
}
