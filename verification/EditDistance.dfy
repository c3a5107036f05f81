/** Case-insensitive edit distance: the table computes the least number of edits, and the least
  number of edits is a pseudo-metric.
 */
module EditDistance {
  function ToLower(c: char): char {
    if 'A' <= c <= 'Z' then c - 'A' + 'a' else c
  }

  const UPPER := "ABCDEFGHIJKLMNOPQRSTUVWXYZ"
  const LOWER := "abcdefghijklmnopqrstuvwxyz"

  lemma PlaceInAlphabet(k: nat)
    requires k < 26
    ensures |UPPER| == |LOWER| == 26
    ensures UPPER[k] as int == 'A' as int + k && LOWER[k] as int == 'a' as int + k
  {
    if k < 13 {
    } else {
    }
  }

  /** Each upper-case letter has the lower-case letter of the same place in the alphabet as its lower case, and
    every other character is left as it is. */
  lemma LowerCaseOf(c: char, k: nat)
    requires k < 26
    ensures |UPPER| == |LOWER| == 26
    ensures c == UPPER[k] ==> ToLower(c) == LOWER[k]
    ensures c !in UPPER ==> ToLower(c) == c
  {
    PlaceInAlphabet(k);
    if 'A' <= c <= 'Z' {
      var place := c as int - 'A' as int;
      PlaceInAlphabet(place);
      assert UPPER[place] == c;
    }
  }

  predicate SameLetter(a: char, b: char) {
    ToLower(a) == ToLower(b)
  }

  function Min(a: nat, b: nat): nat { if a < b then a else b }

  // ----- edits -----

  /** One step of reading a script from the right: a kept letter, a substitution, a deletion from
    the first string or an insertion of a letter of the second. */
  datatype Edit = Keep | Substitute | Delete | Insert

  /** The script turns `a` into `b` up to letter case. */
  ghost predicate Turns(script: seq<Edit>, a: string, b: string)
    decreases |script|
  {
    if script == [] then a == [] && b == []
    else
      var rest := script[..|script| - 1];
      match script[|script| - 1]
      case Keep => a != [] && b != [] && SameLetter(a[|a| - 1], b[|b| - 1]) && Turns(rest, a[..|a| - 1], b[..|b| - 1])
      case Substitute => a != [] && b != [] && Turns(rest, a[..|a| - 1], b[..|b| - 1])
      case Delete => a != [] && Turns(rest, a[..|a| - 1], b)
      case Insert => b != [] && Turns(rest, a, b[..|b| - 1])
  }

  function Cost(script: seq<Edit>): nat
    decreases |script|
  {
    if script == [] then 0
    else Cost(script[..|script| - 1]) + if script[|script| - 1] == Keep then 0 else 1
  }

  // ----- the distance -----

  function Distance(a: string, b: string): nat
    decreases |a| + |b|
  {
    if a == [] then |b|
    else if b == [] then |a|
    else
      var a', b' := a[..|a| - 1], b[..|b| - 1];
      var cost := if SameLetter(a[|a| - 1], b[|b| - 1]) then 0 else 1;
      Min(Min(Distance(a', b) + 1, Distance(a, b') + 1), Distance(a', b') + cost)
  }

  lemma Border(a: string, k: nat)
    requires k <= |a|
    ensures Distance(a[..k], []) == k && Distance([], a[..k]) == k
  {
  }

  lemma Cell(a: string, b: string, i: nat, j: nat)
    requires 1 <= i <= |a| && 1 <= j <= |b|
    ensures Distance(a[..i], b[..j])
            == Min(Min(Distance(a[..i - 1], b[..j]) + 1, Distance(a[..i], b[..j - 1]) + 1),
                   Distance(a[..i - 1], b[..j - 1]) + if SameLetter(a[i - 1], b[j - 1]) then 0 else 1)
  {
    hide SameLetter, Min;
    assert a[..i][..i - 1] == a[..i - 1] && b[..j][..j - 1] == b[..j - 1];
  }

  method EditDistance(a: string, b: string) returns (d: nat)
    ensures d == Distance(a, b)
  {
    hide Distance;
    var m, n := |a|, |b|;
    var dp := new nat[m + 1, n + 1];
    assert a[..0] == [] && b[..0] == [];
    for i := 0 to m + 1
      invariant forall k :: 0 <= k < i ==> dp[k, 0] == Distance(a[..k], b[..0])
    {
      dp[i, 0] := i;
      Border(a, i);
    }
    for j := 0 to n + 1
      invariant forall k :: 0 <= k <= m ==> dp[k, 0] == Distance(a[..k], b[..0])
      invariant forall l :: 0 <= l < j ==> dp[0, l] == Distance(a[..0], b[..l])
    {
      dp[0, j] := j;
      Border(b, j);
    }
    for i := 1 to m + 1
      invariant forall k :: 0 <= k <= m ==> dp[k, 0] == Distance(a[..k], b[..0])
      invariant forall k, l :: 0 <= k < i && 0 <= l <= n ==> dp[k, l] == Distance(a[..k], b[..l])
    {
      for j := 1 to n + 1
        invariant forall k :: 0 <= k <= m ==> dp[k, 0] == Distance(a[..k], b[..0])
        invariant forall k, l :: 0 <= k < i && 0 <= l <= n ==> dp[k, l] == Distance(a[..k], b[..l])
        invariant forall l :: 0 <= l < j ==> dp[i, l] == Distance(a[..i], b[..l])
      {
        var cost := if ToLower(a[i - 1]) != ToLower(b[j - 1]) then 1 else 0;
        Cell(a, b, i, j);
        dp[i, j] := Min(Min(dp[i - 1, j] + 1, dp[i, j - 1] + 1), dp[i - 1, j - 1] + cost);
      }
    }
    assert a[..m] == a && b[..n] == b;
    d := dp[m, n];
  }

  // ----- the distance is the least cost -----

  lemma {:induction false} NoCheaperScript(script: seq<Edit>, a: string, b: string)
    requires Turns(script, a, b)
    ensures Distance(a, b) <= Cost(script)
    decreases |script|
  {
    if script != [] {
      var rest := script[..|script| - 1];
      match script[|script| - 1]
      case Keep => NoCheaperScript(rest, a[..|a| - 1], b[..|b| - 1]);
      case Substitute => NoCheaperScript(rest, a[..|a| - 1], b[..|b| - 1]);
      case Delete => NoCheaperScript(rest, a[..|a| - 1], b);
      case Insert => NoCheaperScript(rest, a, b[..|b| - 1]);
    }
  }

  lemma {:induction false} CheapestScript(a: string, b: string) returns (script: seq<Edit>)
    ensures Turns(script, a, b) && Cost(script) == Distance(a, b)
    decreases |a| + |b|
  {
    if a == [] && b == [] {
      script := [];
      return;
    }
    var last;
    if b == [] || (a != [] && Distance(a, b) == Distance(a[..|a| - 1], b) + 1) {
      script := CheapestScript(a[..|a| - 1], b);
      last := Delete;
    } else if a == [] || Distance(a, b) == Distance(a, b[..|b| - 1]) + 1 {
      script := CheapestScript(a, b[..|b| - 1]);
      last := Insert;
    } else {
      script := CheapestScript(a[..|a| - 1], b[..|b| - 1]);
      last := if SameLetter(a[|a| - 1], b[|b| - 1]) then Keep else Substitute;
    }
    assert (script + [last])[..|script|] == script;
    script := script + [last];
  }

  /** The distance is the cost of a cheapest script, and no script is cheaper. */
  lemma DistanceIsLeastCost(a: string, b: string)
    ensures exists script :: Turns(script, a, b) && Cost(script) == Distance(a, b)
    ensures forall script :: Turns(script, a, b) ==> Distance(a, b) <= Cost(script)
  {
    var script := CheapestScript(a, b);
    forall script | Turns(script, a, b) ensures Distance(a, b) <= Cost(script)
    {
      NoCheaperScript(script, a, b);
    }
  }

  // ----- a pseudo-metric -----

  ghost predicate EqualUpToCase(a: string, b: string) {
    |a| == |b| && forall k :: 0 <= k < |a| ==> SameLetter(a[k], b[k])
  }

  lemma {:induction false} ZeroIffEqual(a: string, b: string)
    ensures Distance(a, b) == 0 <==> EqualUpToCase(a, b)
    decreases |a| + |b|
  {
    if a != [] && b != [] {
      ZeroIffEqual(a[..|a| - 1], b[..|b| - 1]);
    }
  }

  lemma {:induction false} Symmetric(a: string, b: string)
    ensures Distance(a, b) == Distance(b, a)
    decreases |a| + |b|
  {
    if a != [] && b != [] {
      Symmetric(a[..|a| - 1], b);
      Symmetric(a, b[..|b| - 1]);
      Symmetric(a[..|a| - 1], b[..|b| - 1]);
    }
  }

  /** Two scripts in a row make one script of no greater cost. */
  lemma {:induction false} Compose(s: seq<Edit>, t: seq<Edit>, a: string, b: string, c: string) returns (r: seq<Edit>)
    requires Turns(s, a, b) && Turns(t, b, c)
    ensures Turns(r, a, c) && Cost(r) <= Cost(s) + Cost(t)
    decreases |s| + |t|
  {
    if s == [] && t == [] {
      r := [];
      return;
    }
    var last;
    if s != [] && s[|s| - 1] == Delete {
      r := Compose(s[..|s| - 1], t, a[..|a| - 1], b, c);
      last := Delete;
    } else if t != [] && t[|t| - 1] == Insert {
      r := Compose(s, t[..|t| - 1], a, b, c[..|c| - 1]);
      last := Insert;
    } else {
      var x, y := s[|s| - 1], t[|t| - 1];
      if x == Insert && y == Delete {
        r := Compose(s[..|s| - 1], t[..|t| - 1], a, b[..|b| - 1], c);
        return;
      } else if x == Insert {
        r := Compose(s[..|s| - 1], t[..|t| - 1], a, b[..|b| - 1], c[..|c| - 1]);
        last := Insert;
      } else if y == Delete {
        r := Compose(s[..|s| - 1], t[..|t| - 1], a[..|a| - 1], b[..|b| - 1], c);
        last := Delete;
      } else {
        r := Compose(s[..|s| - 1], t[..|t| - 1], a[..|a| - 1], b[..|b| - 1], c[..|c| - 1]);
        last := if x == Keep && y == Keep then Keep else Substitute;
      }
    }
    assert (r + [last])[..|r|] == r;
    r := r + [last];
  }

  lemma TriangleInequality(a: string, b: string, c: string)
    ensures Distance(a, c) <= Distance(a, b) + Distance(b, c)
  {
    var s := CheapestScript(a, b);
    var t := CheapestScript(b, c);
    var r := Compose(s, t, a, b, c);
    NoCheaperScript(r, a, c);
  }
}
