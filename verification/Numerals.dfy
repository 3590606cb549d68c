/**
 Names made unique by numbers: `{name}.{pid}.{nanos}.{seq}.tmp` of `unique_tmp_path`
 (crates/oc-core/src/paths.rs) and `{pid:x}-{nanos:x}-{counter:x}` of `new_request_id`
 (crates/oc-keyagent/src/enclave.rs).
 */
module Numerals {
  function DigitChar(d: nat): (c: char)
    requires d < 16
    ensures c != '.' && c != '-' && c != ' ' && DigitValue(c) == d
  {
    if d < 10 then '0' + d as char else 'a' + (d - 10) as char
  }

  function DigitValue(c: char): nat {
    if '0' <= c <= '9' then (c - '0') as nat else if 'a' <= c <= 'f' then (c - 'a') as nat + 10 else 0
  }

  /** How `format!` prints a number in this base. */
  function Print(n: nat, base: nat): string
    requires base == 10 || base == 16
  {
    if n < base then [DigitChar(n)] else Print(n / base, base) + [DigitChar(n % base)]
  }

  predicate Lacks(s: string, c: char) {
    forall i :: 0 <= i < |s| ==> s[i] != c
  }

  lemma {:induction false} PrintLacks(n: nat, base: nat)
    requires base == 10 || base == 16
    ensures Print(n, base) != [] && Lacks(Print(n, base), '.') && Lacks(Print(n, base), '-') && Lacks(Print(n, base), ' ')
  {
    if n >= base {
      PrintLacks(n / base, base);
    }
  }

  /** What a printed number says. */
  function Value(s: string, base: nat): nat {
    if s == [] then 0 else Value(s[..|s| - 1], base) * base + DigitValue(s[|s| - 1])
  }

  lemma {:induction false} PrintRoundTrip(n: nat, base: nat)
    requires base == 10 || base == 16
    ensures Value(Print(n, base), base) == n
  {
    if n < base {
      assert [DigitChar(n)][..0] == [];
    } else {
      var high := Print(n / base, base);
      PrintRoundTrip(n / base, base);
      assert (high + [DigitChar(n % base)])[..|high|] == high;
    }
  }

  lemma PrintInjective(m: nat, n: nat, base: nat)
    requires (base == 10 || base == 16) && Print(m, base) == Print(n, base)
    ensures m == n
  {
    PrintRoundTrip(m, base);
    PrintRoundTrip(n, base);
  }

  /** A text splits in one way at its last separator. */
  lemma LastSeparator(a: string, x: string, b: string, y: string, sep: char)
    requires a + [sep] + x == b + [sep] + y
    requires Lacks(x, sep) && Lacks(y, sep)
    ensures a == b && x == y
  {
    var s, t := a + [sep] + x, b + [sep] + y;
    assert s[|a|] == sep && t[|b|] == sep;
    assert forall i :: |a| < i < |s| ==> s[i] == x[i - |a| - 1];
    assert forall i :: |b| < i < |t| ==> t[i] == y[i - |b| - 1];
    assert |a| == |b|;
    assert a == s[..|a|] && b == t[..|b|];
    assert x == s[|a| + 1..] && y == t[|b| + 1..];
  }

  /** The file name of `unique_tmp_path`. */
  function TmpName(name: string, pid: nat, nanos: nat, seqNo: nat): string {
    name + "." + Print(pid, 10) + "." + Print(nanos, 10) + "." + Print(seqNo, 10) + ".tmp"
  }

  /** Temporary names differ unless target, process, instant and counter all agree. */
  lemma TmpNameInjective(n1: string, p1: nat, t1: nat, s1: nat, n2: string, p2: nat, t2: nat, s2: nat)
    requires TmpName(n1, p1, t1, s1) == TmpName(n2, p2, t2, s2)
    ensures n1 == n2 && p1 == p2 && t1 == t2 && s1 == s2
  {
    PrintLacks(p1, 10); PrintLacks(t1, 10); PrintLacks(s1, 10);
    PrintLacks(p2, 10); PrintLacks(t2, 10); PrintLacks(s2, 10);
    var a1 := n1 + "." + Print(p1, 10);
    var a2 := n2 + "." + Print(p2, 10);
    var b1 := a1 + "." + Print(t1, 10);
    var b2 := a2 + "." + Print(t2, 10);
    assert TmpName(n1, p1, t1, s1) == (b1 + "." + Print(s1, 10)) + ['.'] + "tmp";
    assert TmpName(n2, p2, t2, s2) == (b2 + "." + Print(s2, 10)) + ['.'] + "tmp";
    LastSeparator(b1 + "." + Print(s1, 10), "tmp", b2 + "." + Print(s2, 10), "tmp", '.');
    LastSeparator(b1, Print(s1, 10), b2, Print(s2, 10), '.');
    LastSeparator(a1, Print(t1, 10), a2, Print(t2, 10), '.');
    LastSeparator(n1, Print(p1, 10), n2, Print(p2, 10), '.');
    PrintInjective(p1, p2, 10);
    PrintInjective(t1, t2, 10);
    PrintInjective(s1, s2, 10);
  }

  /** The leftover name that older versions used. */
  function LegacyName(name: string): string {
    "." + name + ".tmp"
  }

  lemma TmpNameIsNeitherTargetNorLegacy(name: string, pid: nat, nanos: nat, seqNo: nat)
    ensures TmpName(name, pid, nanos, seqNo) != name
    ensures TmpName(name, pid, nanos, seqNo) != LegacyName(name)
    ensures LegacyName(name) != name
  {
    PrintLacks(pid, 10);
    PrintLacks(nanos, 10);
    PrintLacks(seqNo, 10);
    assert |TmpName(name, pid, nanos, seqNo)| >= |name| + 10;
    assert |LegacyName(name)| == |name| + 5;
  }

  function RequestId(pid: nat, nanos: nat, counter: nat): string {
    Print(pid, 16) + "-" + Print(nanos, 16) + "-" + Print(counter, 16)
  }

  /** How the names look. */
  lemma NamesLookLike()
    ensures RequestId(255, 16, 10) == "ff-10-a"
    ensures TmpName("x", 12, 30, 0) == "x.12.30.0.tmp" && LegacyName("x") == ".x.tmp"
  {
    assert Print(255, 16) == Print(15, 16) + "f" && Print(16, 16) == Print(1, 16) + "0";
    assert Print(12, 10) == Print(1, 10) + "2" && Print(30, 10) == Print(3, 10) + "0";
  }

  /** Request ids of one process differ as their counters do. */
  lemma RequestIdInjective(p1: nat, t1: nat, c1: nat, p2: nat, t2: nat, c2: nat)
    requires RequestId(p1, t1, c1) == RequestId(p2, t2, c2)
    ensures p1 == p2 && t1 == t2 && c1 == c2
  {
    PrintLacks(t1, 16); PrintLacks(c1, 16);
    PrintLacks(t2, 16); PrintLacks(c2, 16);
    LastSeparator(Print(p1, 16) + "-" + Print(t1, 16), Print(c1, 16), Print(p2, 16) + "-" + Print(t2, 16), Print(c2, 16), '-');
    LastSeparator(Print(p1, 16), Print(t1, 16), Print(p2, 16), Print(t2, 16), '-');
    PrintInjective(p1, p2, 16);
    PrintInjective(t1, t2, 16);
    PrintInjective(c1, c2, 16);
  }
}
