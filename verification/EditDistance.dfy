// The two edit-distance programs (internal/cmderr/levenshtein.go, internal/cli/guard_runtime.go) and the
// suggestions built on them (internal/cmderr/suggest.go), against least edit scripts.
module EditDistance {

  datatype Edit<T> = Insert(at: nat, symbol: T) | Delete(at: nat) | Substitute(at: nat, symbol: T)

  predicate Applicable<T>(s: seq<T>, e: Edit<T>) {
    if e.Insert? then e.at <= |s| else e.at < |s|
  }

  function Apply<T>(s: seq<T>, e: Edit<T>): (t: seq<T>)
    requires Applicable(s, e)
  {
    match e
    case Insert(at, symbol) => s[..at] + [symbol] + s[at..]
    case Delete(at) => s[..at] + s[at + 1..]
    case Substitute(at, symbol) => s[at := symbol]
  }

  /** The script, applied in order, turns a into b. */
  predicate Transforms<T(==)>(a: seq<T>, script: seq<Edit<T>>, b: seq<T>)
    decreases |script|
  {
    if script == [] then a == b
    else Applicable(a, script[0]) && Transforms(Apply(a, script[0]), script[1..], b)
  }

  function Min3(a: nat, b: nat, c: nat): (m: nat)
  {
    if a < b then (if a < c then a else c) else if b < c then b else c
  }

  function Cost<T(==)>(x: T, y: T): (cost: nat)
  {
    if x == y then 0 else 1
  }

  function Front<T>(s: seq<T>): (f: seq<T>)
    requires s != []
  {
    s[..|s| - 1]
  }

  function Last<T>(s: seq<T>): (x: T)
    requires s != []
  {
    s[|s| - 1]
  }

  /** The recurrence both programs evaluate. */
  function Dist<T(==)>(a: seq<T>, b: seq<T>): (d: nat)
    decreases |a| + |b|
  {
    if a == [] then |b|
    else if b == [] then |a|
    else Min3(Dist(Front(a), b) + 1, Dist(a, Front(b)) + 1, Dist(Front(a), Front(b)) + Cost(Last(a), Last(b)))
  }

  lemma {:induction false} Symmetric<T>(a: seq<T>, b: seq<T>)
    ensures Dist(a, b) == Dist(b, a)
    decreases |a| + |b|
  {
    if a != [] && b != [] {
      Symmetric(Front(a), b);
      Symmetric(a, Front(b));
      Symmetric(Front(a), Front(b));
    }
  }

  lemma {:induction false} LengthBounds<T>(a: seq<T>, b: seq<T>)
    ensures |a| <= Dist(a, b) + |b| && |b| <= Dist(a, b) + |a| && Dist(a, b) <= |a| + |b|
    decreases |a| + |b|
  {
    if a != [] && b != [] {
      LengthBounds(Front(a), b);
      LengthBounds(a, Front(b));
      LengthBounds(Front(a), Front(b));
    }
  }

  lemma {:induction false} FromEmpty<T>(a: seq<T>)
    ensures Dist(a, []) == |a| && Dist([], a) == |a|
  {
  }

  /** Each way of ending an alignment bounds the distance. */
  lemma StepBounds<T>(a: seq<T>, b: seq<T>)
    ensures a != [] ==> Dist(a, b) <= Dist(Front(a), b) + 1
    ensures b != [] ==> Dist(a, b) <= Dist(a, Front(b)) + 1
    ensures a != [] && b != [] ==> Dist(a, b) <= Dist(Front(a), Front(b)) + Cost(Last(a), Last(b))
  {
  }

  lemma {:induction false} Triangle<T>(a: seq<T>, b: seq<T>, c: seq<T>)
    ensures Dist(a, c) <= Dist(a, b) + Dist(b, c)
    decreases |a| + |b| + |c|
  {
    LengthBounds(a, c);
    LengthBounds(a, b);
    LengthBounds(b, c);
    if a != [] && b != [] && c != [] {
      StepBounds(a, c);
      if Dist(a, b) == Dist(Front(a), b) + 1 {
        Triangle(Front(a), b, c);
      } else if Dist(b, c) == Dist(b, Front(c)) + 1 {
        Triangle(a, b, Front(c));
      } else if Dist(a, b) == Dist(a, Front(b)) + 1 {
        if Dist(b, c) == Dist(Front(b), c) + 1 {
          Triangle(a, Front(b), c);
        } else {
          Triangle(a, Front(b), Front(c));
        }
      } else if Dist(b, c) == Dist(Front(b), c) + 1 {
        Triangle(Front(a), Front(b), c);
      } else {
        Triangle(Front(a), Front(b), Front(c));
      }
    }
  }

  lemma {:induction false} Reflexive<T>(a: seq<T>)
    ensures Dist(a, a) == 0
  {
    if a != [] {
      Reflexive(Front(a));
      StepBounds(a, a);
    }
  }

  /** A common ending adds nothing. */
  lemma {:induction false} CommonEnding<T>(x: seq<T>, y: seq<T>, z: seq<T>)
    ensures Dist(x + z, y + z) <= Dist(x, y)
    decreases |z|
  {
    if z == [] {
      assert x + z == x && y + z == y;
    } else {
      CommonEnding(x, y, Front(z));
      assert Front(x + z) == x + Front(z) && Front(y + z) == y + Front(z);
      StepBounds(x + z, y + z);
    }
  }

  lemma OneApart<T>(x: seq<T>, c: T, d: T)
    ensures Dist(x + [c], x) <= 1 && Dist(x, x + [c]) <= 1 && Dist(x + [c], x + [d]) <= 1
  {
    Reflexive(x);
    assert Front(x + [c]) == x && Front(x + [d]) == x;
    StepBounds(x + [c], x);
    StepBounds(x, x + [c]);
    StepBounds(x + [c], x + [d]);
  }

  /** One edit is at most one away. */
  lemma OneEdit<T>(s: seq<T>, e: Edit<T>)
    requires Applicable(s, e)
    ensures Dist(s, Apply(s, e)) <= 1
  {
    var x := s[..e.at];
    match e
    case Insert(at, symbol) =>
      assert s == x + s[at..];
      OneApart(x, symbol, symbol);
      CommonEnding(x, x + [symbol], s[at..]);
    case Delete(at) =>
      assert s == x + [s[at]] + s[at + 1..];
      OneApart(x, s[at], s[at]);
      CommonEnding(x + [s[at]], x, s[at + 1..]);
    case Substitute(at, symbol) =>
      assert s == x + [s[at]] + s[at + 1..] && Apply(s, e) == x + [symbol] + s[at + 1..];
      OneApart(x, s[at], symbol);
      CommonEnding(x + [s[at]], x + [symbol], s[at + 1..]);
  }

  /** No script is shorter than the distance. */
  lemma {:induction false} NoShorterScript<T>(a: seq<T>, script: seq<Edit<T>>, b: seq<T>)
    requires Transforms(a, script, b)
    ensures Dist(a, b) <= |script|
    decreases |script|
  {
    if script == [] {
      Reflexive(a);
    } else {
      OneEdit(a, script[0]);
      NoShorterScript(Apply(a, script[0]), script[1..], b);
      Triangle(a, Apply(a, script[0]), b);
    }
  }

  lemma ApplyBeforeEnding<T>(a: seq<T>, e: Edit<T>, z: seq<T>)
    requires Applicable(a, e)
    ensures Applicable(a + z, e) && Apply(a + z, e) == Apply(a, e) + z
  {
  }

  /** A script works the same in front of any ending. */
  lemma {:induction false} TransformsBeforeEnding<T>(a: seq<T>, script: seq<Edit<T>>, b: seq<T>, z: seq<T>)
    requires Transforms(a, script, b)
    ensures Transforms(a + z, script, b + z)
    decreases |script|
  {
    if script != [] {
      ApplyBeforeEnding(a, script[0], z);
      TransformsBeforeEnding(Apply(a, script[0]), script[1..], b, z);
    }
  }

  lemma {:induction false} TransformsSnoc<T>(a: seq<T>, script: seq<Edit<T>>, b: seq<T>, e: Edit<T>)
    requires Transforms(a, script, b) && Applicable(b, e)
    ensures Transforms(a, script + [e], Apply(b, e))
    decreases |script|
  {
    if script == [] {
      assert script + [e] == [e] && [e][1..] == [];
    } else {
      assert (script + [e])[1..] == script[1..] + [e];
      TransformsSnoc(Apply(a, script[0]), script[1..], b, e);
    }
  }

  lemma TransformsCons<T>(a: seq<T>, e: Edit<T>, script: seq<Edit<T>>, b: seq<T>)
    requires Applicable(a, e) && Transforms(Apply(a, e), script, b)
    ensures Transforms(a, [e] + script, b)
  {
  }

  lemma ThenDelete<T>(a: seq<T>, rest: seq<Edit<T>>, b: seq<T>)
    requires a != [] && Transforms(Front(a), rest, b)
    ensures Transforms(a, [Delete(|a| - 1)] + rest, b)
  {
    assert Apply(a, Delete(|a| - 1)) == Front(a);
    TransformsCons(a, Delete(|a| - 1), rest, b);
  }

  lemma ThenInsert<T>(a: seq<T>, rest: seq<Edit<T>>, b: seq<T>)
    requires b != [] && Transforms(a, rest, Front(b))
    ensures Transforms(a, rest + [Insert(|b| - 1, Last(b))], b)
  {
    assert Apply(Front(b), Insert(|b| - 1, Last(b))) == b;
    TransformsSnoc(a, rest, Front(b), Insert(|b| - 1, Last(b)));
  }

  lemma FrontLast<T>(s: seq<T>)
    requires s != []
    ensures Front(s) + [Last(s)] == s
  {
  }

  lemma ThenMatch<T>(a: seq<T>, rest: seq<Edit<T>>, b: seq<T>)
    requires a != [] && b != [] && Transforms(Front(a), rest, Front(b)) && Last(a) == Last(b)
    ensures Transforms(a, rest, b)
  {
    var z := [Last(b)];
    TransformsBeforeEnding(Front(a), rest, Front(b), z);
    FrontLast(a);
    FrontLast(b);
  }

  lemma ThenSubstitute<T>(a: seq<T>, rest: seq<Edit<T>>, b: seq<T>)
    requires a != [] && b != [] && Transforms(Front(a), rest, Front(b))
    ensures Transforms(a, [Substitute(|a| - 1, Last(b))] + rest, b)
  {
    var z := [Last(b)];
    TransformsBeforeEnding(Front(a), rest, Front(b), z);
    assert Front(b) + z == b && Apply(a, Substitute(|a| - 1, Last(b))) == Front(a) + z;
    TransformsCons(a, Substitute(|a| - 1, Last(b)), rest, b);
  }

  /** Some script is as long as the distance. */
  lemma {:induction false} BestScript<T>(a: seq<T>, b: seq<T>) returns (script: seq<Edit<T>>)
    ensures |script| == Dist(a, b) && Transforms(a, script, b)
    decreases |a| + |b|
  {
    if a == [] && b == [] {
      script := [];
    } else if a != [] && Dist(a, b) == Dist(Front(a), b) + 1 {
      var rest := BestScript(Front(a), b);
      ThenDelete(a, rest, b);
      script := [Delete(|a| - 1)] + rest;
    } else if b != [] && Dist(a, b) == Dist(a, Front(b)) + 1 {
      var rest := BestScript(a, Front(b));
      ThenInsert(a, rest, b);
      script := rest + [Insert(|b| - 1, Last(b))];
    } else {
      var rest := BestScript(Front(a), Front(b));
      if Last(a) == Last(b) {
        ThenMatch(a, rest, b);
        script := rest;
      } else {
        ThenSubstitute(a, rest, b);
        script := [Substitute(|a| - 1, Last(b))] + rest;
      }
    }
  }

  /** The distance is the least number of insertions, deletions and substitutions. */
  lemma DistIsLeast<T>(a: seq<T>, b: seq<T>)
    ensures exists script :: Transforms(a, script, b) && |script| == Dist(a, b)
    ensures forall script :: Transforms(a, script, b) ==> Dist(a, b) <= |script|
  {
    var best := BestScript(a, b);
    forall script | Transforms(a, script, b) ensures Dist(a, b) <= |script| {
      NoShorterScript(a, script, b);
    }
  }

  /** When the last symbols match, aligning them is best. */
  lemma MatchShortcut<T>(a: seq<T>, b: seq<T>)
    requires a != [] && b != [] && Last(a) == Last(b)
    ensures Dist(a, b) == Dist(Front(a), Front(b))
  {
    Reflexive(Front(a));
    Reflexive(Front(b));
    StepBounds(b, Front(b));
    StepBounds(Front(a), a);
    Triangle(Front(a), b, Front(b));
    Triangle(Front(a), a, Front(b));
  }

  /** The recurrence in terms of prefixes. */
  lemma DistPrefixes<T>(a: seq<T>, b: seq<T>, i: nat, j: nat)
    requires 0 < i <= |a| && 0 < j <= |b|
    ensures Dist(a[..i], b[..j]) ==
            Min3(Dist(a[..i - 1], b[..j]) + 1, Dist(a[..i], b[..j - 1]) + 1,
                 Dist(a[..i - 1], b[..j - 1]) + Cost(a[i - 1], b[j - 1]))
  {
    assert Front(a[..i]) == a[..i - 1] && Front(b[..j]) == b[..j - 1];
  }

  lemma ShortcutPrefixes<T>(a: seq<T>, b: seq<T>, i: nat, j: nat)
    requires 0 < i <= |a| && 0 < j <= |b| && a[i - 1] == b[j - 1]
    ensures Dist(a[..i], b[..j]) == Dist(a[..i - 1], b[..j - 1])
  {
    assert Front(a[..i]) == a[..i - 1] && Front(b[..j]) == b[..j - 1];
    MatchShortcut(a[..i], b[..j]);
  }

  type Table = seq<seq<nat>>

  /** One cell of the table obeys the recurrence, and the shortcut on a match. */
  ghost predicate CellOk<T>(t: Table, a: seq<T>, b: seq<T>, i: nat, j: nat)
    requires |t| == |a| + 1 && (forall k :: 0 <= k <= |a| ==> |t[k]| == |b| + 1) && i <= |a| && j <= |b|
  {
    if i == 0 then t[i][j] == j
    else if j == 0 then t[i][j] == i
    else
      && t[i][j] == Min3(t[i - 1][j] + 1, t[i][j - 1] + 1, t[i - 1][j - 1] + Cost(a[i - 1], b[j - 1]))
      && (a[i - 1] == b[j - 1] ==> t[i][j] == t[i - 1][j - 1])
  }

  ghost predicate IsTable<T>(t: Table, a: seq<T>, b: seq<T>) {
    && |t| == |a| + 1 && (forall k :: 0 <= k <= |a| ==> |t[k]| == |b| + 1)
    && forall i: nat, j: nat :: i <= |a| && j <= |b| ==> CellOk(t, a, b, i, j)
  }

  /** The distances between all prefixes. */
  ghost function TableOf<T>(a: seq<T>, b: seq<T>): (t: Table)
  {
    seq(|a| + 1, i requires 0 <= i <= |a| => seq(|b| + 1, j requires 0 <= j <= |b| => Dist(a[..i], b[..j])))
  }

  lemma InnerCell<T>(t: Table, a: seq<T>, b: seq<T>, i: nat, j: nat)
    requires |t| == |a| + 1 && (forall k :: 0 <= k <= |a| ==> |t[k]| == |b| + 1) && 0 < i <= |a| && 0 < j <= |b|
    requires t[i][j] == Dist(a[..i], b[..j]) && t[i][j - 1] == Dist(a[..i], b[..j - 1])
    requires t[i - 1][j] == Dist(a[..i - 1], b[..j]) && t[i - 1][j - 1] == Dist(a[..i - 1], b[..j - 1])
    ensures CellOk(t, a, b, i, j)
  {
    DistPrefixes(a, b, i, j);
    if a[i - 1] == b[j - 1] {
      ShortcutPrefixes(a, b, i, j);
    }
  }

  lemma CellOfTable<T>(a: seq<T>, b: seq<T>, i: nat, j: nat)
    requires i <= |a| && j <= |b|
    ensures CellOk(TableOf(a, b), a, b, i, j)
  {
    if i > 0 && j > 0 {
      InnerCell(TableOf(a, b), a, b, i, j);
    } else {
      FromEmpty(a[..i]);
      FromEmpty(b[..j]);
    }
  }

  lemma TableIsTable<T>(a: seq<T>, b: seq<T>)
    ensures IsTable(TableOf(a, b), a, b) && TableOf(a, b)[|a|][|b|] == Dist(a, b)
  {
    forall i: nat, j: nat | i <= |a| && j <= |b| ensures CellOk(TableOf(a, b), a, b, i, j) {
      CellOfTable(a, b, i, j);
    }
    assert a[..|a|] == a && b[..|b|] == b;
  }

  lemma FirstColumn<T>(t: Table, a: seq<T>, b: seq<T>)
    requires IsTable(t, a, b)
    ensures forall k :: 0 <= k <= |a| ==> t[k][0] == k
  {
    forall k | 0 <= k <= |a| ensures t[k][0] == k {
      assert CellOk(t, a, b, k, 0);
    }
  }

  /** min3. */
  method MinOfThree(a: int, b: int, c: int) returns (m: int)
    ensures m <= a && m <= b && m <= c && (m == a || m == b || m == c)
  {
    if a < b {
      if a < c {
        return a;
      }
      return c;
    }
    if b < c {
      return b;
    }
    return c;
  }

  /** The first n entries of the row are column j of the table. */
  ghost predicate Holds(row: seq<int>, t: Table, j: nat, n: nat)
    requires n <= |t| && forall k :: 0 <= k < |t| ==> j < |t[k]|
  {
    |row| == |t| && forall k :: 0 <= k < n ==> row[k] == t[k][j]
  }

  /** Distance: two rows, over the shorter sequence. */
  method Distance<T(==)>(a: seq<T>, b: seq<T>) returns (d: nat)
    ensures d == Dist(a, b)
  {
    if |a| == 0 {
      return |b|;
    }
    if |b| == 0 {
      return |a|;
    }
    var ra, rb := a, b;
    if |a| > |b| {
      ra, rb := b, a;
    }
    Symmetric(a, b);
    TableIsTable(ra, rb);
    d := TwoRows(ra, rb, TableOf(ra, rb));
  }

  method TwoRows<T(==)>(ra: seq<T>, rb: seq<T>, ghost t: Table) returns (d: nat)
    requires IsTable(t, ra, rb)
    ensures d == t[|ra|][|rb|]
  {
    var la, lb := |ra|, |rb|;
    var prev := new int[la + 1](i => i);
    var curr := new int[la + 1](i => 0);
    FirstColumn(t, ra, rb);
    for j := 1 to lb + 1
      invariant prev != curr && prev.Length == curr.Length == la + 1 && fresh(prev) && fresh(curr)
      invariant Holds(prev[..], t, j - 1, la + 1)
    {
      NextRow(ra, rb, j, prev, curr, t);
      prev, curr := curr, prev;
    }
    return prev[la];
  }

  /** The inner loop: column j of the table from column j - 1. */
  method NextRow<T(==)>(ra: seq<T>, rb: seq<T>, j: nat, prev: array<int>, curr: array<int>, ghost t: Table)
    requires IsTable(t, ra, rb) && 0 < j <= |rb| && prev != curr && prev.Length == curr.Length == |ra| + 1
    requires Holds(prev[..], t, j - 1, |ra| + 1)
    modifies curr
    ensures Holds(curr[..], t, j, |ra| + 1)
  {
    curr[0] := j;
    assert CellOk(t, ra, rb, 0, j);
    for i := 1 to |ra| + 1
      invariant Holds(curr[..], t, j, i)
    {
      var cost := 1;
      if ra[i - 1] == rb[j - 1] {
        cost := 0;
      }
      assert CellOk(t, ra, rb, i, j);
      assert prev[..][i] == prev[i] && prev[..][i - 1] == prev[i - 1] && curr[..][i - 1] == curr[i - 1];
      var m := MinOfThree(prev[i] + 1, curr[i - 1] + 1, prev[i - 1] + cost);
      curr[i] := m;
    }
  }

  /** levenshtein: one row, with a shortcut on a match. */
  method Levenshtein<T(==)>(a: seq<T>, b: seq<T>) returns (d: nat)
    ensures d == Dist(a, b)
  {
    if |a| == 0 {
      return |b|;
    }
    if |b| == 0 {
      return |a|;
    }
    Symmetric(a, b);
    TableIsTable(b, a);
    d := OneRow(a, b, TableOf(b, a));
  }

  method OneRow<T(==)>(a: seq<T>, b: seq<T>, ghost t: Table) returns (d: nat)
    requires IsTable(t, b, a)
    ensures d == t[|b|][|a|]
  {
    var row := new int[|b| + 1](j => j);
    FirstColumn(t, b, a);
    for i := 1 to |a| + 1
      invariant Holds(row[..], t, i - 1, |b| + 1)
    {
      UpdateRow(a, b, i, row, t);
    }
    return row[|b|];
  }

  /** The row halfway: its first n entries are column i of the table, the others still column i - 1. */
  ghost predicate Halfway(row: seq<int>, t: Table, i: nat, n: nat)
    requires 0 < i && n <= |t| && forall k :: 0 <= k < |t| ==> i < |t[k]|
  {
    Holds(row, t, i, n) && forall k :: n <= k < |t| ==> row[k] == t[k][i - 1]
  }

  /** The inner loop, in place: prev is the entry above and to the left, overwritten in the turn before. */
  method UpdateRow<T(==)>(a: seq<T>, b: seq<T>, i: nat, row: array<int>, ghost t: Table)
    requires IsTable(t, b, a) && 0 < i <= |a| && Holds(row[..], t, i - 1, |b| + 1)
    modifies row
    ensures Holds(row[..], t, i, |b| + 1)
  {
    var prev := row[0];
    row[0] := i;
    assert CellOk(t, b, a, 0, i) && CellOk(t, b, a, 0, i - 1);
    for j := 1 to |b| + 1
      invariant Halfway(row[..], t, i, j)
      invariant prev == t[j - 1][i - 1]
    {
      var tmp := row[j];
      assert CellOk(t, b, a, j, i);
      assert row[..][j] == row[j] && row[..][j - 1] == row[j - 1];
      if a[i - 1] == b[j - 1] {
        row[j] := prev;
      } else {
        var m := MinOfThree(prev, row[j], row[j - 1]);
        row[j] := 1 + m;
      }
      prev := tmp;
    }
  }

  /** The first of the names at the least distance from the input, among those no further than the bound. */
  ghost predicate FirstClosest(input: string, names: seq<string>, bound: int, k: nat) {
    && k < |names| && Dist(input, names[k]) <= bound
    && (forall j :: 0 <= j < |names| ==> Dist(input, names[k]) <= Dist(input, names[j]))
    && (forall j :: 0 <= j < k ==> Dist(input, names[k]) < Dist(input, names[j]))
  }

  /** The search so far: nothing within the bound yet, or the first closest of the names seen. */
  ghost predicate BestSoFar(input: string, names: seq<string>, bound: int, n: nat, best: string, bestDist: int, at: nat)
    requires n <= |names|
  {
    if bestDist == bound + 1 then best == "" && forall j :: 0 <= j < n ==> Dist(input, names[j]) > bound
    else FirstClosest(input, names[..n], bound, at) && best == names[at] && bestDist == Dist(input, names[at])
  }

  lemma BestNext(input: string, names: seq<string>, bound: int, n: nat, best: string, bestDist: int, at: nat)
    requires n < |names| && BestSoFar(input, names, bound, n, best, bestDist, at) && bestDist <= bound + 1
    ensures var d := Dist(input, names[n]);
            if d <= bound && d < bestDist then BestSoFar(input, names, bound, n + 1, names[n], d, n)
            else BestSoFar(input, names, bound, n + 1, best, bestDist, at)
  {
  }

  /** SuggestProvider: the first closest slug within the threshold, unless the input is itself a slug. */
  method SuggestProvider(input: string, knownSlugs: seq<string>, threshold: int) returns (best: string, ghost at: nat)
    ensures (exists j :: 0 <= j < |knownSlugs| && knownSlugs[j] == input) ==> best == ""
    ensures (forall j :: 0 <= j < |knownSlugs| ==> Dist(input, knownSlugs[j]) > threshold) ==> best == ""
    ensures (forall j :: 0 <= j < |knownSlugs| ==> knownSlugs[j] != input) &&
            (exists j :: 0 <= j < |knownSlugs| && Dist(input, knownSlugs[j]) <= threshold) ==>
              FirstClosest(input, knownSlugs, threshold, at) && best == knownSlugs[at]
  {
    best, at := "", 0;
    var bestDist := threshold + 1;
    for n := 0 to |knownSlugs|
      invariant forall j :: 0 <= j < n ==> knownSlugs[j] != input
      invariant BestSoFar(input, knownSlugs, threshold, n, best, bestDist, at) && bestDist <= threshold + 1
    {
      var slug := knownSlugs[n];
      if slug == input {
        return "", 0;
      }
      BestNext(input, knownSlugs, threshold, n, best, bestDist, at);
      var d := Distance(input, slug);
      if d <= threshold && d < bestDist {
        bestDist, best, at := d, slug, n;
      }
    }
    assert knownSlugs[..|knownSlugs|] == knownSlugs;
  }

  const MODE_BOUND: int := 3

  /** suggestMode: the first closest mode at a distance below four, the input itself included. */
  method SuggestMode(input: string, modes: seq<string>) returns (best: string, ghost at: nat)
    ensures (forall j :: 0 <= j < |modes| ==> Dist(input, modes[j]) > MODE_BOUND) ==> best == ""
    ensures (exists j :: 0 <= j < |modes| && Dist(input, modes[j]) <= MODE_BOUND) ==>
              FirstClosest(input, modes, MODE_BOUND, at) && best == modes[at]
  {
    best, at := "", 0;
    var bestDist := MODE_BOUND + 1;
    for n := 0 to |modes|
      invariant BestSoFar(input, modes, MODE_BOUND, n, best, bestDist, at) && bestDist <= MODE_BOUND + 1
    {
      BestNext(input, modes, MODE_BOUND, n, best, bestDist, at);
      var d := Levenshtein(input, modes[n]);
      if d < bestDist {
        bestDist, best, at := d, modes[n], n;
      }
    }
    assert modes[..|modes|] == modes;
  }
}
