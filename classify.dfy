/** The classifying predicates of types/resolve.go: the integer and float tables
    that follow typedef chains (lines 15-60) and the shape tests on a spelling
    (lines 428-498). */
module Classify {
  import opened GoStrings
  import opened ProgramState

  /** `cIntegerType` (types/resolve.go:15-28). */
  const CIntegerTypes: seq<string> := [
    "int", "long long", "long long int", "long long unsigned int", "long unsigned int",
    "long", "short", "unsigned int", "unsigned long long", "unsigned long",
    "unsigned short", "unsigned short int"]

  /** `cFloatType` (types/resolve.go:43-47). */
  const CFloatTypes: seq<string> := ["double", "float", "long double"]

  datatype Option<T> = None | Some(value: T)

  // ---------------------------------------------------------------------------
  // Typedef chains

  /** The spelling reached from `t` after `k` typedef links, if the chain is that
      long. */
  function ChainAt(typedefs: map<string, string>, t: string, k: nat): Option<string>
    decreases k
  {
    if k == 0 then Some(t)
    else match ChainAt(typedefs, t, k - 1)
      case Some(u) => if u in typedefs then Some(typedefs[u]) else None
      case None => None
  }

  /** Following at most `fuel` typedef links from `t` meets a spelling of
      `table`: what `IsCInteger` and `IsCFloat` decide, the recursion at lines
      37-39 and 56-58 being bounded by `fuel`. */
  predicate ReachesTable(typedefs: map<string, string>, t: string, table: seq<string>, fuel: nat)
    decreases fuel
  {
    t in table || (fuel > 0 && t in typedefs && ReachesTable(typedefs, typedefs[t], table, fuel - 1))
  }

  /** One link taken first is one link fewer afterwards. */
  lemma {:induction false} ChainAtStep(typedefs: map<string, string>, t: string, k: nat)
    requires t in typedefs
    ensures ChainAt(typedefs, t, k + 1) == ChainAt(typedefs, typedefs[t], k)
    decreases k
  {
    if k > 0 {
      ChainAtStep(typedefs, t, k - 1);
    }
  }

  /** The bounded recursion decides exactly whether some spelling on the
      first `fuel` links of the chain is in the table. */
  lemma ReachesTableIff(typedefs: map<string, string>, t: string, table: seq<string>, fuel: nat)
    ensures ReachesTable(typedefs, t, table, fuel) <==>
      exists k :: 0 <= k <= fuel && ChainAt(typedefs, t, k).Some? && ChainAt(typedefs, t, k).value in table
  {
    if ReachesTable(typedefs, t, table, fuel) {
      var k := ReachesTableWitness(typedefs, t, table, fuel);
    }
    if exists k :: 0 <= k <= fuel && ChainAt(typedefs, t, k).Some? && ChainAt(typedefs, t, k).value in table {
      var k :| 0 <= k <= fuel && ChainAt(typedefs, t, k).Some? && ChainAt(typedefs, t, k).value in table;
      ChainReachesTable(typedefs, t, table, fuel, k);
    }
  }

  /** The link at which a successful search stops. */
  lemma {:induction false} ReachesTableWitness(typedefs: map<string, string>, t: string, table: seq<string>, fuel: nat)
    returns (k: nat)
    requires ReachesTable(typedefs, t, table, fuel)
    ensures k <= fuel && ChainAt(typedefs, t, k).Some? && ChainAt(typedefs, t, k).value in table
    decreases fuel
  {
    if t in table {
      k := 0;
    } else {
      var j := ReachesTableWitness(typedefs, typedefs[t], table, fuel - 1);
      ChainAtStep(typedefs, t, j);
      k := j + 1;
    }
  }

  /** A table spelling on the first `fuel` links is found by the search. */
  lemma {:induction false} ChainReachesTable(typedefs: map<string, string>, t: string, table: seq<string>, fuel: nat, k: nat)
    requires k <= fuel && ChainAt(typedefs, t, k).Some? && ChainAt(typedefs, t, k).value in table
    ensures ReachesTable(typedefs, t, table, fuel)
    decreases k
  {
    if k > 0 {
      if t in typedefs {
        ChainAtStep(typedefs, t, k - 1);
        ChainReachesTable(typedefs, typedefs[t], table, fuel - 1, k - 1);
      } else {
        ChainAtNone(typedefs, t, k);
      }
    }
  }

  /** A chain that stops at `t` stays stopped. */
  lemma {:induction false} ChainAtNone(typedefs: map<string, string>, t: string, k: nat)
    requires t !in typedefs && k >= 1
    ensures ChainAt(typedefs, t, k) == None
    decreases k
  {
    if k > 1 {
      ChainAtNone(typedefs, t, k - 1);
    }
  }

  /** Links compose: `i` links and then `j` more are `i + j` links. */
  lemma {:induction false} ChainAtAdd(typedefs: map<string, string>, t: string, i: nat, j: nat)
    requires ChainAt(typedefs, t, i).Some?
    ensures ChainAt(typedefs, t, i + j) == ChainAt(typedefs, ChainAt(typedefs, t, i).value, j)
    decreases j
  {
    if j > 0 {
      ChainAtAdd(typedefs, t, i, j - 1);
    }
  }

  /** Every spelling before the end of a chain is a typedef name. */
  lemma {:induction false} ChainAtDefined(typedefs: map<string, string>, t: string, i: nat, k: nat)
    requires i < k && ChainAt(typedefs, t, k).Some?
    ensures ChainAt(typedefs, t, i).Some? && ChainAt(typedefs, t, i).value in typedefs
    decreases k
  {
    if i < k - 1 {
      ChainAtDefined(typedefs, t, i, k - 1);
    }
  }

  /** If the chain visits the same spelling at links `i < j`, everything
      reached from link `i` on is reached again `j - i` links later, so a
      spelling met after link `j` was met before it. */
  lemma {:induction false} ChainAtFold(typedefs: map<string, string>, t: string, i: nat, j: nat, k: nat)
    requires i < j <= k
    requires ChainAt(typedefs, t, i).Some? && ChainAt(typedefs, t, i) == ChainAt(typedefs, t, j)
    ensures ChainAt(typedefs, t, k - (j - i)) == ChainAt(typedefs, t, k)
  {
    var u := ChainAt(typedefs, t, i).value;
    ChainAtAdd(typedefs, t, i, k - j);
    ChainAtAdd(typedefs, t, j, k - j);
    assert i + (k - j) == k - (j - i);
  }

  /** Pigeonhole on the typedef map: the first `|typedefs| + 1` spellings of a
      chain that is at least that long cannot all differ. */
  lemma {:induction false} ChainRepeats(typedefs: map<string, string>, t: string, n: nat)
    requires n == |typedefs| && ChainAt(typedefs, t, n + 1).Some?
    ensures exists i, j :: 0 <= i < j <= n && ChainAt(typedefs, t, i) == ChainAt(typedefs, t, j)
  {
    if forall i, j :: 0 <= i < j <= n ==> ChainAt(typedefs, t, i) != ChainAt(typedefs, t, j) {
      var names := ChainNames(typedefs, t, n);
      forall i | 0 <= i <= n ensures ChainAt(typedefs, t, i).Some? && ChainAt(typedefs, t, i).value in typedefs {
        ChainAtDefined(typedefs, t, i, n + 1);
      }
      assert names <= typedefs.Keys;
      DistinctLinks(typedefs, t, n);
      SubsetSize(names, typedefs.Keys);
      assert false;
    }
  }

  /** The spellings on the first `n + 1` links of a chain. */
  function ChainNames(typedefs: map<string, string>, t: string, n: nat): set<string> {
    set i | 0 <= i <= n && ChainAt(typedefs, t, i).Some? :: ChainAt(typedefs, t, i).value
  }

  lemma {:induction false} SubsetSize<T>(a: set<T>, b: set<T>)
    requires a <= b
    ensures |a| <= |b|
    decreases |a|
  {
    if a != {} {
      var x :| x in a;
      SubsetSize(a - {x}, b - {x});
    }
  }

  /** Distinct links give as many distinct names as links. */
  lemma {:induction false} DistinctLinks(typedefs: map<string, string>, t: string, n: nat)
    requires forall i :: 0 <= i <= n ==> ChainAt(typedefs, t, i).Some?
    requires forall i, j :: 0 <= i < j <= n ==> ChainAt(typedefs, t, i) != ChainAt(typedefs, t, j)
    ensures |ChainNames(typedefs, t, n)| == n + 1
    decreases n
  {
    var names := ChainNames(typedefs, t, n);
    if n == 0 {
      assert names == {t};
    } else {
      var before := ChainNames(typedefs, t, n - 1);
      DistinctLinks(typedefs, t, n - 1);
      var last := ChainAt(typedefs, t, n).value;
      forall i | 0 <= i <= n - 1 ensures ChainAt(typedefs, t, i).value != last {
        assert ChainAt(typedefs, t, i) != ChainAt(typedefs, t, n);
      }
      assert names == before + {last};
      assert last !in before;
      assert |before + {last}| == |before| + 1;
    }
  }

  /** Bounding the chain by the number of typedefs loses nothing: if any link of
      the chain, however far, is in the table, the bounded recursion finds one.
      Without the bound the source recursion would not end on a cyclic
      typedef map that misses the table. */
  lemma {:induction false} TypedefFuelSuffices(typedefs: map<string, string>, t: string, table: seq<string>, k: nat)
    requires ChainAt(typedefs, t, k).Some? && ChainAt(typedefs, t, k).value in table
    ensures ReachesTable(typedefs, t, table, |typedefs|)
    decreases k
  {
    var n := |typedefs|;
    if k <= n {
      ReachesTableIff(typedefs, t, table, n);
    } else {
      ChainAtDefined(typedefs, t, n, k);
      assert ChainAt(typedefs, t, n + 1).Some? by {
        if n + 1 < k {
          ChainAtDefined(typedefs, t, n + 1, k);
        }
      }
      ChainRepeats(typedefs, t, n);
      var i, j :| 0 <= i < j <= n && ChainAt(typedefs, t, i) == ChainAt(typedefs, t, j);
      ChainAtDefined(typedefs, t, i, k);
      ChainAtFold(typedefs, t, i, j, k);
      TypedefFuelSuffices(typedefs, t, table, k - (j - i));
    }
  }

  // ---------------------------------------------------------------------------
  // The table scans

  /** The `for` loop over a table (lines 32-36 and 51-55). */
  method InTable(t: string, table: seq<string>) returns (found: bool)
    ensures found <==> t in table
  {
    for i := 0 to |table|
      invariant t !in table[..i]
    {
      if t == table[i] {
        return true;
      }
    }
    return false;
  }

  /** The table scan followed by the typedef recursion, as a loop over the links
      of the chain. */
  method FollowTypedefs(typedefs: map<string, string>, t: string, table: seq<string>) returns (found: bool)
    ensures found == ReachesTable(typedefs, t, table, |typedefs|)
  {
    var cur: string, fuel: nat := t, |typedefs|;
    while true
      invariant ReachesTable(typedefs, cur, table, fuel) == ReachesTable(typedefs, t, table, |typedefs|)
      decreases fuel
    {
      var hit := InTable(cur, table);
      if hit {
        return true;
      }
      if fuel == 0 || cur !in typedefs {
        return false;
      }
      cur, fuel := typedefs[cur], fuel - 1;
    }
  }

  /** `IsCInteger` (types/resolve.go:31-41). */
  method IsCInteger(reg: Registry, cType: string) returns (b: bool)
    ensures b == ReachesTable(reg.typedefs, cType, CIntegerTypes, |reg.typedefs|)
  {
    b := FollowTypedefs(reg.typedefs, cType, CIntegerTypes);
  }

  /** `IsCFloat` (types/resolve.go:50-60). */
  method IsCFloat(reg: Registry, cType: string) returns (b: bool)
    ensures b == ReachesTable(reg.typedefs, cType, CFloatTypes, |reg.typedefs|)
  {
    b := FollowTypedefs(reg.typedefs, cType, CFloatTypes);
  }

  // ---------------------------------------------------------------------------
  // Shape tests

  /** `IsFunction` (types/resolve.go:429-432): after deleting every `(*)` a `(`
      is left. */
  function IsFunction(s: string): (b: bool)
  {
    '(' in ReplaceAll(s, "(*)", "")
  }

  /** An opening parenthesis that does not start a `(*)`. */
  predicate OpensGroup(s: string, i: int) {
    0 <= i < |s| && s[i] == '(' && !HasPrefix(s[i..], "(*)")
  }

  /** `IsFunction(s)` holds exactly when some `(` of `s` does not start `(*)`:
      deleting `(*)` neither hides nor creates another `(`. */
  lemma {:induction false} IsFunctionIff(s: string)
    ensures IsFunction(s) <==> exists i :: OpensGroup(s, i)
    decreases |s|
  {
    if |s| < 3 {
      assert ReplaceAll(s, "(*)", "") == s;
      forall i | 0 <= i < |s| ensures OpensGroup(s, i) <==> s[i] == '(' { }
    } else if HasPrefix(s, "(*)") {
      var rest := s[3..];
      IsFunctionIff(rest);
      assert !OpensGroup(s, 0);
      assert !OpensGroup(s, 1) && !OpensGroup(s, 2) by {
        assert s[1] == '*' && s[2] == ')';
      }
      forall i | 3 <= i < |s| ensures OpensGroup(s, i) <==> OpensGroup(rest, i - 3) {
        assert s[i..] == rest[i - 3..];
      }
      if exists i :: OpensGroup(rest, i) {
        var i :| OpensGroup(rest, i);
        assert OpensGroup(s, i + 3);
      }
    } else {
      var rest := s[1..];
      IsFunctionIff(rest);
      forall i | 1 <= i < |s| ensures OpensGroup(s, i) <==> OpensGroup(rest, i - 1) {
        assert s[i..] == rest[i - 1..];
      }
      assert ReplaceAll(s, "(*)", "") == [s[0]] + ReplaceAll(rest, "(*)", "");
      if exists i :: OpensGroup(rest, i) {
        var i :| OpensGroup(rest, i);
        assert OpensGroup(s, i + 1);
      }
      if s[0] == '(' {
        assert OpensGroup(s, 0);
      }
    }
  }

  /** `IsCPointer` (types/resolve.go:435-450). The `break` at line 446 leaves
      only the `switch`, so the backward scan goes on past any character and
      the test is whether a `*` occurs anywhere. */
  method IsCPointer(s: string) returns (b: bool)
    ensures b <==> '*' in s
  {
    if |s| == 0 {
      return false;
    }
    var i := |s|;
    while i > 0
      invariant 0 <= i <= |s|
      invariant '*' !in s[i..]
    {
      i := i - 1;
      if s[i] == ' ' {
        continue;
      } else if s[i] == '*' {
        return true;
      }
      assert s[i..] == [s[i]] + s[i + 1..];
    }
    assert s[0..] == s;
    return false;
  }

  /** `IsCArray` (types/resolve.go:453-468): like `IsCPointer`, a test for a
      `]` anywhere. */
  method IsCArray(s: string) returns (b: bool)
    ensures b <==> ']' in s
  {
    if |s| == 0 {
      return false;
    }
    var i := |s|;
    while i > 0
      invariant 0 <= i <= |s|
      invariant ']' !in s[i..]
    {
      i := i - 1;
      if s[i] == ' ' {
        continue;
      } else if s[i] == ']' {
        return true;
      }
      assert s[i..] == [s[i]] + s[i + 1..];
    }
    assert s[0..] == s;
    return false;
  }

  /** `IsPointer` (types/resolve.go:471-473). */
  function IsPointer(s: string): (b: bool)
    ensures b <==> '*' in s || '[' in s || ']' in s
  {
    ContainsAny(s, "*[]")
  }

  /** `IsLastArray` (types/resolve.go:476-486): the `break` at line 482 ends
      only the `switch`, so the forward scan returns as soon as it meets a
      `[`, wherever it is. */
  method IsLastArray(s: string) returns (b: bool)
    ensures b <==> '[' in s
  {
    for i := 0 to |s|
      invariant '[' !in s[..i]
    {
      if s[i] == '[' {
        return true;
      }
      assert s[..i + 1] == s[..i] + [s[i]];
    }
    assert s[..|s|] == s;
    return false;
  }

  /** `IsTypedefFunction` (types/resolve.go:489-498). The slice at line 493
      panics on a spelling shorter than two characters that the first lookup
      did not accept; that is the precondition. */
  function IsTypedefFunction(reg: Registry, s: string): (b: bool)
    requires |s| >= 2 || (s in reg.typedefs && IsFunction(reg.typedefs[s]))
    ensures b <==> exists name :: name in reg.typedefs && IsFunction(reg.typedefs[name])
                      && (name == s || (|s| >= 2 && name == s[..|s| - 2]))
  {
    if s in reg.typedefs && IsFunction(reg.typedefs[s]) then true
    else
      var base := s[..|s| - 2];
      base in reg.typedefs && IsFunction(reg.typedefs[base])
  }

  /** A typedef of a function type is recognised both by its name and by its
      name followed by ` *`, the pointer spelling clang prints. */
  lemma TypedefFunctionPointer(reg: Registry, name: string)
    requires name in reg.typedefs && IsFunction(reg.typedefs[name])
    ensures IsTypedefFunction(reg, name)
    ensures IsTypedefFunction(reg, name + " *")
  {
    assert (name + " *")[..|name + " *"| - 2] == name;
  }
}
