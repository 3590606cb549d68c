/**
 The Levenshtein distance of crates/oc-core/src/text.rs.

 Three definitions meet here: the two-row loop of the source, the textbook recurrence on
 prefixes, and the meaning both are meant to have - the least number of single-character
 edits. Edit scripts connect the last two.
 */
module EditDistance {

  function Min(x: nat, y: nat): nat {
    if x <= y then x else y
  }

  function Max(x: nat, y: nat): nat {
    if x <= y then y else x
  }

  function Init(s: string): string
    requires s != []
  {
    s[..|s| - 1]
  }

  function Last(s: string): char
    requires s != []
  {
    s[|s| - 1]
  }

  // ---------------------------------------------------------------------------
  // The recurrence
  // ---------------------------------------------------------------------------

  /** The recurrence that the rows of the source tabulate. */
  function Distance(a: string, b: string): (d: nat)
    decreases |a| + |b|
  {
    if a == [] then |b|
    else if b == [] then |a|
    else
      var cost := if Last(a) != Last(b) then 1 else 0;
      Min(Min(Distance(Init(a), b) + 1, Distance(a, Init(b)) + 1), Distance(Init(a), Init(b)) + cost)
  }

  // ---------------------------------------------------------------------------
  // Edit scripts
  // ---------------------------------------------------------------------------

  /** An edit script, read left to right; the constructors say what happens at its right end. */
  datatype Script =
    | Done
    | Keep(rest: Script, c: char)
    | Replace(rest: Script, from: char, to: char)
    | Insert(rest: Script, c: char)
    | Delete(rest: Script, c: char)

  /** The string a script applies to. */
  function Source(s: Script): string {
    match s
    case Done => []
    case Keep(r, c) => Source(r) + [c]
    case Replace(r, c, _) => Source(r) + [c]
    case Insert(r, _) => Source(r)
    case Delete(r, c) => Source(r) + [c]
  }

  /** The string a script produces. */
  function Target(s: Script): string {
    match s
    case Done => []
    case Keep(r, c) => Target(r) + [c]
    case Replace(r, _, c) => Target(r) + [c]
    case Insert(r, c) => Target(r) + [c]
    case Delete(r, _) => Target(r)
  }

  /** Every edit costs one, keeping a character is free. */
  function Cost(s: Script): nat {
    match s
    case Done => 0
    case Keep(r, _) => Cost(r)
    case Replace(r, _, _) => Cost(r) + 1
    case Insert(r, _) => Cost(r) + 1
    case Delete(r, _) => Cost(r) + 1
  }

  predicate Turns(s: Script, a: string, b: string) {
    Source(s) == a && Target(s) == b
  }

  lemma Parts(s: string)
    requires s != []
    ensures Init(s) + [Last(s)] == s
  {
  }

  lemma SnocParts(s: string, c: char)
    ensures Init(s + [c]) == s && Last(s + [c]) == c
  {
  }

  /** The recurrence is attained: some script turns a into b at that cost. */
  lemma {:induction false} ScriptExists(a: string, b: string) returns (s: Script)
    ensures Turns(s, a, b)
    ensures Cost(s) == Distance(a, b)
    decreases |a| + |b|
  {
    if a != [] { Parts(a); }
    if b != [] { Parts(b); }
    if a == [] && b == [] {
      s := Done;
    } else if b != [] && Distance(a, b) == Distance(a, Init(b)) + 1 {
      var r := ScriptExists(a, Init(b));
      s := Insert(r, Last(b));
    } else if a != [] && Distance(a, b) == Distance(Init(a), b) + 1 {
      var r := ScriptExists(Init(a), b);
      s := Delete(r, Last(a));
    } else {
      var r := ScriptExists(Init(a), Init(b));
      s := if Last(a) == Last(b) then Keep(r, Last(a)) else Replace(r, Last(a), Last(b));
    }
  }

  /** The recurrence is a lower bound: no script is cheaper. */
  lemma {:induction false} NoCheaperScript(s: Script)
    ensures Distance(Source(s), Target(s)) <= Cost(s)
  {
    match s
    case Done =>
    case Keep(r, c) =>
      NoCheaperScript(r);
      SnocParts(Source(r), c);
      SnocParts(Target(r), c);
    case Replace(r, c, d) =>
      NoCheaperScript(r);
      SnocParts(Source(r), c);
      SnocParts(Target(r), d);
    case Insert(r, c) =>
      NoCheaperScript(r);
      SnocParts(Target(r), c);
    case Delete(r, c) =>
      NoCheaperScript(r);
      SnocParts(Source(r), c);
  }

  // ---------------------------------------------------------------------------
  // Composing and inverting scripts
  // ---------------------------------------------------------------------------

  /** The script that undoes s. */
  function Inverse(s: Script): (t: Script)
    ensures Turns(t, Target(s), Source(s))
    ensures Cost(t) == Cost(s)
  {
    match s
    case Done => Done
    case Keep(r, c) => Keep(Inverse(r), c)
    case Replace(r, c, d) => Replace(Inverse(r), d, c)
    case Insert(r, c) => Delete(Inverse(r), c)
    case Delete(r, c) => Insert(Inverse(r), c)
  }

  /** Running s and then t as one script, at no more than the two costs together. */
  lemma {:induction false} Compose(s: Script, t: Script) returns (u: Script)
    requires Target(s) == Source(t)
    ensures Turns(u, Source(s), Target(t))
    ensures Cost(u) <= Cost(s) + Cost(t)
    decreases s, t
  {
    if t.Insert? {
      var r := Compose(s, t.rest);
      u := Insert(r, t.c);
    } else if s.Delete? {
      var r := Compose(s.rest, t);
      u := Delete(r, s.c);
    } else if s.Done? {
      u := Done;
    } else {
      LastConsumed(t);
      LastProduced(s);
      var r := Compose(s.rest, t.rest);
      match (s, t)
      case (Keep(_, c), Keep(_, _)) => u := Keep(r, c);
      case (Keep(_, c), Replace(_, _, e)) => u := Replace(r, c, e);
      case (Replace(_, c, d), Keep(_, _)) => u := Replace(r, c, d);
      case (Replace(_, c, _), Replace(_, _, e)) => u := Replace(r, c, e);
      case (Insert(_, d), Keep(_, _)) => u := Insert(r, d);
      case (Insert(_, _), Replace(_, _, e)) => u := Insert(r, e);
      case (Insert(_, _), Delete(_, _)) => u := r;
      case (Keep(_, c), Delete(_, _)) => u := Delete(r, c);
      case (Replace(_, c, _), Delete(_, _)) => u := Delete(r, c);
    }
  }

  lemma LastConsumed(t: Script)
    requires t.Keep? || t.Replace? || t.Delete?
    ensures Source(t) != [] && Init(Source(t)) == Source(t.rest)
    ensures Last(Source(t)) == if t.Replace? then t.from else t.c
  {
  }

  lemma LastProduced(s: Script)
    requires s.Keep? || s.Replace? || s.Insert?
    ensures Target(s) != [] && Init(Target(s)) == Target(s.rest)
    ensures Last(Target(s)) == if s.Replace? then s.to else s.c
  {
  }

  // ---------------------------------------------------------------------------
  // The metric laws
  // ---------------------------------------------------------------------------

  lemma {:induction false} FreeScriptKeepsAll(s: Script)
    requires Cost(s) == 0
    ensures Source(s) == Target(s)
  {
    if s.Keep? {
      FreeScriptKeepsAll(s.rest);
    }
  }

  function KeepAll(a: string): (s: Script)
    ensures Turns(s, a, a) && Cost(s) == 0
  {
    if a == [] then Done else Keep(KeepAll(Init(a)), Last(a))
  }

  lemma {:induction false} ZeroIffEqual(a: string, b: string)
    ensures Distance(a, b) == 0 <==> a == b
  {
    var s := ScriptExists(a, b);
    if Distance(a, b) == 0 {
      FreeScriptKeepsAll(s);
    }
    if a == b {
      NoCheaperScript(KeepAll(a));
    }
  }

  lemma {:induction false} Symmetric(a: string, b: string)
    ensures Distance(a, b) == Distance(b, a)
  {
    var s := ScriptExists(a, b);
    var t := ScriptExists(b, a);
    NoCheaperScript(Inverse(s));
    NoCheaperScript(Inverse(t));
  }

  lemma {:induction false} Triangle(a: string, b: string, c: string)
    ensures Distance(a, c) <= Distance(a, b) + Distance(b, c)
  {
    var s := ScriptExists(a, b);
    var t := ScriptExists(b, c);
    var u := Compose(s, t);
    NoCheaperScript(u);
  }

  lemma {:induction false} LengthBounds(a: string, b: string)
    ensures |a| - |b| <= Distance(a, b) && |b| - |a| <= Distance(a, b)
    ensures Distance(a, b) <= Max(|a|, |b|)
    decreases |a| + |b|
  {
    if a != [] && b != [] {
      LengthBounds(Init(a), b);
      LengthBounds(a, Init(b));
      LengthBounds(Init(a), Init(b));
    }
  }

  // ---------------------------------------------------------------------------
  // The meaning: fewest single-character edits
  // ---------------------------------------------------------------------------

  /** t is s with one more character somewhere. */
  ghost predicate OneInsert(s: string, t: string) {
    exists p: nat, c: char :: p <= |s| && t == InsertAt(s, p, c)
  }

  function InsertAt(s: string, p: nat, c: char): string
    requires p <= |s|
  {
    s[..p] + [c] + s[p..]
  }

  function ReplaceAt(s: string, p: nat, c: char): string
    requires p < |s|
  {
    s[p := c]
  }

  /** One insertion, deletion or substitution, at any position. */
  ghost predicate OneEdit(s: string, t: string) {
    || OneInsert(s, t)
    || OneInsert(t, s)
    || exists p: nat, c: char :: p < |s| && t == ReplaceAt(s, p, c)
  }

  /** Strings that go from a to b one edit at a time. */
  ghost predicate EditPath(path: seq<string>, a: string, b: string) {
    && path != []
    && path[0] == a
    && path[|path| - 1] == b
    && forall i :: 0 < i < |path| ==> OneEdit(path[i - 1], path[i])
  }

  function KeepOn(s: Script, tail: string): (t: Script)
    ensures Turns(t, Source(s) + tail, Target(s) + tail)
    ensures Cost(t) == Cost(s)
    decreases |tail|
  {
    if tail == [] then s
    else
      var t := KeepOn(Keep(s, tail[0]), tail[1..]);
      assert Source(s) + tail == (Source(s) + [tail[0]]) + tail[1..];
      assert Target(s) + tail == (Target(s) + [tail[0]]) + tail[1..];
      t
  }

  lemma InsertScript(s: string, p: nat, c: char) returns (u: Script)
    requires p <= |s|
    ensures Turns(u, s, InsertAt(s, p, c)) && Cost(u) == 1
  {
    u := KeepOn(Insert(KeepAll(s[..p]), c), s[p..]);
    assert s[..p] + s[p..] == s;
  }

  lemma OneEditIsNear(s: string, t: string)
    requires OneEdit(s, t)
    ensures Distance(s, t) <= 1
  {
    if OneInsert(s, t) {
      var p: nat, c: char :| p <= |s| && t == InsertAt(s, p, c);
      var u := InsertScript(s, p, c);
      NoCheaperScript(u);
    } else if OneInsert(t, s) {
      var p: nat, c: char :| p <= |t| && s == InsertAt(t, p, c);
      var u := InsertScript(t, p, c);
      NoCheaperScript(Inverse(u));
    } else {
      var p: nat, c: char :| p < |s| && t == ReplaceAt(s, p, c);
      var u := KeepOn(Replace(KeepAll(s[..p]), s[p], c), s[p + 1..]);
      assert s == s[..p] + [s[p]] + s[p + 1..];
      assert t == s[..p] + [c] + s[p + 1..];
      NoCheaperScript(u);
    }
  }

  /** No path of single edits from a to b is shorter than the distance. */
  lemma {:induction false} NoShorterPath(path: seq<string>, a: string, b: string)
    requires EditPath(path, a, b)
    ensures Distance(a, b) <= |path| - 1
    decreases |path|
  {
    if |path| == 1 {
      ZeroIffEqual(a, b);
    } else {
      var mid := path[|path| - 2];
      NoShorterPath(path[..|path| - 1], a, mid);
      OneEditIsNear(mid, b);
      Triangle(a, mid, b);
    }
  }

  function AppendToAll(path: seq<string>, c: char): (r: seq<string>)
    ensures |r| == |path|
    ensures forall i :: 0 <= i < |path| ==> r[i] == path[i] + [c]
  {
    if path == [] then [] else [path[0] + [c]] + AppendToAll(path[1..], c)
  }

  lemma OneInsertGrows(s: string, t: string, c: char)
    requires OneInsert(s, t)
    ensures OneInsert(s + [c], t + [c])
  {
    var p: nat, d: char :| p <= |s| && t == InsertAt(s, p, d);
    assert t + [c] == InsertAt(s + [c], p, d);
  }

  lemma OneEditGrows(s: string, t: string, c: char)
    requires OneEdit(s, t)
    ensures OneEdit(s + [c], t + [c])
  {
    if OneInsert(s, t) {
      OneInsertGrows(s, t, c);
    } else if OneInsert(t, s) {
      OneInsertGrows(t, s, c);
    } else {
      var p: nat, d: char :| p < |s| && t == ReplaceAt(s, p, d);
      assert t + [c] == ReplaceAt(s + [c], p, d);
    }
  }

  lemma PathGrows(path: seq<string>, a: string, b: string, c: char)
    requires EditPath(path, a, b)
    ensures EditPath(AppendToAll(path, c), a + [c], b + [c])
  {
    var r := AppendToAll(path, c);
    forall i | 0 < i < |r| ensures OneEdit(r[i - 1], r[i]) {
      OneEditGrows(path[i - 1], path[i], c);
    }
  }

  /** A script unrolls into that many single edits. */
  lemma {:induction false} ScriptPath(s: Script) returns (path: seq<string>)
    ensures EditPath(path, Source(s), Target(s))
    ensures |path| == Cost(s) + 1
  {
    match s
    case Done =>
      path := [[]];
    case Keep(r, c) =>
      var p := ScriptPath(r);
      PathGrows(p, Source(r), Target(r), c);
      path := AppendToAll(p, c);
    case Replace(r, c, d) =>
      var p := ScriptPath(r);
      PathGrows(p, Source(r), Target(r), c);
      path := AppendToAll(p, c) + [Target(r) + [d]];
      assert Target(r) + [d] == ReplaceAt(Target(r) + [c], |Target(r)|, d);
    case Insert(r, c) =>
      var p := ScriptPath(r);
      path := p + [Target(r) + [c]];
      assert Target(r) + [c] == InsertAt(Target(r), |Target(r)|, c);
    case Delete(r, c) =>
      var p := ScriptPath(r);
      path := [Source(r) + [c]] + p;
      assert Source(r) + [c] == InsertAt(Source(r), |Source(r)|, c);
  }

  /** n single-character edits suffice to get from a to b, and no fewer do. */
  ghost predicate FewestEdits(n: nat, a: string, b: string) {
    && (exists path :: EditPath(path, a, b) && |path| == n + 1)
    && (forall path :: EditPath(path, a, b) ==> n + 1 <= |path|)
  }

  lemma DistanceIsFewestEdits(a: string, b: string)
    ensures FewestEdits(Distance(a, b), a, b)
  {
    var s := ScriptExists(a, b);
    var path := ScriptPath(s);
    assert EditPath(path, a, b) && |path| == Distance(a, b) + 1;
    forall p | EditPath(p, a, b) ensures Distance(a, b) + 1 <= |p| {
      NoShorterPath(p, a, b);
    }
  }

  // ---------------------------------------------------------------------------
  // The two-row loop
  // ---------------------------------------------------------------------------

  /** One cell of the table: the distance between prefixes. */
  ghost function Cell(a: string, b: string, i: nat, j: nat): nat
    requires i <= |a| && j <= |b|
  {
    Distance(a[..i], b[..j])
  }

  /** The first n cells of table row i are in place. */
  ghost predicate RowFilled(row: array<nat>, a: string, b: string, i: nat, n: nat)
    reads row
    requires i <= |a|
  {
    && row.Length == |b| + 1
    && n <= row.Length
    && forall j :: 0 <= j < n ==> row[j] == Cell(a, b, i, j)
  }

  lemma NextCell(a: string, b: string, i: nat, j: nat)
    requires 0 < i <= |a| && 0 < j <= |b|
    ensures Cell(a, b, i, j) ==
            Min(Min(Cell(a, b, i - 1, j) + 1, Cell(a, b, i, j - 1) + 1),
                Cell(a, b, i - 1, j - 1) + if a[i - 1] != b[j - 1] then 1 else 0)
  {
    assert Init(a[..i]) == a[..i - 1];
    assert Init(b[..j]) == b[..j - 1];
  }

  lemma Borders(a: string, b: string)
    ensures forall j :: 0 <= j <= |b| ==> Cell(a, b, 0, j) == j
    ensures forall i :: 0 <= i <= |a| ==> Cell(a, b, i, 0) == i
    ensures Cell(a, b, |a|, |b|) == Distance(a, b)
  {
    assert a[..|a|] == a && b[..|b|] == b;
  }

  /** The loop of the source: two rows, filled in place and swapped after each character of a. */
  method Compute(a: string, b: string) returns (d: nat)
    ensures d == Distance(a, b)
    ensures FewestEdits(d, a, b)
  {
    if |a| == 0 {
      DistanceIsFewestEdits(a, b);
      return |b|;
    }
    if |b| == 0 {
      DistanceIsFewestEdits(a, b);
      return |a|;
    }
    Borders(a, b);
    var prev := new nat[|b| + 1](j => j);
    var curr := new nat[|b| + 1](_ => 0);
    var i := 1;
    while i <= |a|
      invariant 1 <= i <= |a| + 1
      invariant prev != curr && fresh(prev) && fresh(curr)
      invariant curr.Length == |b| + 1
      invariant RowFilled(prev, a, b, i - 1, |b| + 1)
    {
      curr[0] := i;
      var j := 1;
      while j <= |b|
        invariant 1 <= j <= |b| + 1
        invariant RowFilled(prev, a, b, i - 1, |b| + 1)
        invariant RowFilled(curr, a, b, i, j)
      {
        var cost := if a[i - 1] != b[j - 1] then 1 else 0;
        NextCell(a, b, i, j);
        curr[j] := Min(Min(prev[j] + 1, curr[j - 1] + 1), prev[j - 1] + cost);
        j := j + 1;
      }
      prev, curr := curr, prev;
      i := i + 1;
    }
    DistanceIsFewestEdits(a, b);
    d := prev[|b|];
  }
}
