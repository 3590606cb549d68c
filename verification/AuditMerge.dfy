/**
 Merging log fragments, `AuditLog::merge` of crates/oc-keyagent/src/audit.rs: the first entry
 seen for each (device, number) goes into one file sorted by (timestamp, number, device).
 */
module AuditMerge {
  import opened Results
  import opened AuditLog

  type EntryKey = (string, nat)

  function KeyOf(e: Entry): EntryKey {
    (e.body.deviceId, e.body.seqNo)
  }

  /** A fragment file, which may fail to open. */
  datatype Fragment = Unreadable | Readable(lines: seq<Line>)

  // ---------------------------------------------------------------------------
  // The order of the output
  // ---------------------------------------------------------------------------

  /** `str::cmp` says Less. */
  predicate TextBefore(s: string, t: string) {
    t != [] && (s == [] || s[0] < t[0] || (s[0] == t[0] && TextBefore(s[1..], t[1..])))
  }

  lemma {:induction false} TextOrder(s: string, t: string)
    ensures !(TextBefore(s, t) && TextBefore(t, s))
    ensures s == t || TextBefore(s, t) || TextBefore(t, s)
    ensures !TextBefore(s, s)
  {
    if s != [] {
      TextOrder(s[1..], s[1..]);
      if t != [] {
        TextOrder(s[1..], t[1..]);
        assert s == [s[0]] + s[1..] && t == [t[0]] + t[1..];
      }
    }
  }

  lemma {:induction false} TextTransitive(s: string, t: string, u: string)
    requires TextBefore(s, t) && TextBefore(t, u)
    ensures TextBefore(s, u)
  {
    if s != [] && s[0] == t[0] == u[0] {
      TextTransitive(s[1..], t[1..], u[1..]);
    }
  }

  /** s comes first at the first place where the two differ, or is a proper beginning of t. */
  ghost predicate DiffersAt(s: string, t: string, k: nat) {
    k <= |s| && k < |t| && s[..k] == t[..k] && (k == |s| || s[k] < t[k])
  }

  lemma {:induction false} TextBeforeMeans(s: string, t: string)
    ensures TextBefore(s, t) <==> exists k: nat :: DiffersAt(s, t, k)
  {
    if TextBefore(s, t) {
      if s == [] || s[0] < t[0] {
        assert DiffersAt(s, t, 0);
      } else {
        TextBeforeMeans(s[1..], t[1..]);
        var k: nat :| DiffersAt(s[1..], t[1..], k);
        assert s[..k + 1] == [s[0]] + s[1..][..k] && t[..k + 1] == [t[0]] + t[1..][..k];
        assert DiffersAt(s, t, k + 1);
      }
    } else if k: nat :| DiffersAt(s, t, k) {
      if k > 0 {
        assert s[0] == s[..k][0] == t[..k][0] == t[0];
        assert s[1..][..k - 1] == s[..k][1..] && t[1..][..k - 1] == t[..k][1..];
        assert DiffersAt(s[1..], t[1..], k - 1);
        TextBeforeMeans(s[1..], t[1..]);
      }
    }
  }

  /** By timestamp, then number, then device. */
  predicate Before(a: Entry, b: Entry) {
    || TextBefore(a.body.timestamp, b.body.timestamp)
    || (a.body.timestamp == b.body.timestamp &&
        (a.body.seqNo < b.body.seqNo ||
         (a.body.seqNo == b.body.seqNo && TextBefore(a.body.deviceId, b.body.deviceId))))
  }

  lemma BeforeIsStrictOrder(a: Entry, b: Entry)
    ensures !(Before(a, b) && Before(b, a))
    ensures KeyOf(a) != KeyOf(b) ==> Before(a, b) || Before(b, a)
    ensures !Before(a, a)
  {
    TextOrder(a.body.timestamp, b.body.timestamp);
    TextOrder(a.body.deviceId, b.body.deviceId);
  }

  lemma BeforeTransitive(a: Entry, b: Entry, c: Entry)
    requires Before(a, b) && Before(b, c)
    ensures Before(a, c)
  {
    if TextBefore(a.body.timestamp, b.body.timestamp) && TextBefore(b.body.timestamp, c.body.timestamp) {
      TextTransitive(a.body.timestamp, b.body.timestamp, c.body.timestamp);
    } else if TextBefore(a.body.deviceId, b.body.deviceId) && TextBefore(b.body.deviceId, c.body.deviceId) {
      TextTransitive(a.body.deviceId, b.body.deviceId, c.body.deviceId);
    }
  }

  ghost predicate Sorted(es: seq<Entry>) {
    forall i, j :: 0 <= i < j < |es| ==> Before(es[i], es[j])
  }

  /** A strictly sorted sequence is determined by its members. */
  lemma {:induction false} SortedUnique(es: seq<Entry>, fs: seq<Entry>)
    requires Sorted(es) && Sorted(fs)
    requires forall e :: e in es <==> e in fs
    ensures es == fs
  {
    if fs != [] {
      assert fs[0] in es;
    }
    if es != [] {
      assert es[0] in fs;
      var k :| 0 <= k < |fs| && fs[k] == es[0];
      assert fs[0] in es;
      var m :| 0 <= m < |es| && es[m] == fs[0];
      BeforeIsStrictOrder(es[0], fs[0]);
      assert es[0] == fs[0];
      forall e ensures e in es[1..] <==> e in fs[1..] {
        TailMembers(es, e);
        TailMembers(fs, e);
      }
      SortedUnique(es[1..], fs[1..]);
      assert es == [es[0]] + es[1..] && fs == [fs[0]] + fs[1..];
    }
  }

  lemma TailMembers(es: seq<Entry>, e: Entry)
    requires Sorted(es) && es != []
    ensures e in es[1..] <==> e in es && e != es[0]
  {
    if e in es[1..] {
      var i :| 0 <= i < |es[1..]| && es[1..][i] == e;
      BeforeIsStrictOrder(es[0], es[0]);
      assert Before(es[0], es[i + 1]);
    }
    assert es == [es[0]] + es[1..];
  }

  // ---------------------------------------------------------------------------
  // What is collected
  // ---------------------------------------------------------------------------

  function AllLines(fragments: seq<Fragment>): seq<Line> {
    if fragments == [] then []
    else
      var f := fragments[|fragments| - 1];
      AllLines(fragments[..|fragments| - 1]) + if f.Readable? then f.lines else []
  }

  /** e is the first entry under its key. */
  ghost predicate FirstSeen(es: seq<Entry>, e: Entry) {
    exists i :: 0 <= i < |es| && es[i] == e && forall j :: 0 <= j < i ==> KeyOf(es[j]) != KeyOf(e)
  }

  /** The map holds the first entry of every key, and nothing else. */
  ghost predicate HoldsFirst(seen: map<EntryKey, Entry>, es: seq<Entry>) {
    && (forall k :: k in seen ==> KeyOf(seen[k]) == k && FirstSeen(es, seen[k]))
    && (forall i :: 0 <= i < |es| ==> KeyOf(es[i]) in seen)
  }

  lemma FirstSeenSnoc(es: seq<Entry>, x: Entry, e: Entry)
    requires FirstSeen(es, e)
    ensures FirstSeen(es + [x], e)
  {
    var i :| 0 <= i < |es| && es[i] == e && forall j :: 0 <= j < i ==> KeyOf(es[j]) != KeyOf(e);
    assert (es + [x])[i] == e;
  }

  lemma FirstSeenNew(es: seq<Entry>, x: Entry)
    requires forall j :: 0 <= j < |es| ==> KeyOf(es[j]) != KeyOf(x)
    ensures FirstSeen(es + [x], x)
  {
    assert (es + [x])[|es|] == x;
  }

  lemma FirstSeenUnique(es: seq<Entry>, e: Entry, f: Entry)
    requires FirstSeen(es, e) && FirstSeen(es, f) && KeyOf(e) == KeyOf(f)
    ensures e == f
  {
    var i :| 0 <= i < |es| && es[i] == e && forall j :: 0 <= j < i ==> KeyOf(es[j]) != KeyOf(e);
    var k :| 0 <= k < |es| && es[k] == f && forall j :: 0 <= j < k ==> KeyOf(es[j]) != KeyOf(f);
  }

  /** The map's values are exactly the first-seen entries. */
  lemma ValuesAreFirst(seen: map<EntryKey, Entry>, es: seq<Entry>)
    requires HoldsFirst(seen, es)
    ensures forall e :: e in seen.Values <==> FirstSeen(es, e)
  {
    forall e | FirstSeen(es, e) ensures e in seen.Values {
      assert KeyOf(e) in seen;
      FirstSeenUnique(es, e, seen[KeyOf(e)]);
    }
  }

  /** One more entry after the map has taken in all before it. */
  lemma TakeKnown(seen: map<EntryKey, Entry>, es: seq<Entry>, e: Entry)
    requires HoldsFirst(seen, es) && KeyOf(e) in seen
    ensures HoldsFirst(seen, es + [e])
  {
    forall k | k in seen ensures FirstSeen(es + [e], seen[k]) {
      FirstSeenSnoc(es, e, seen[k]);
    }
  }

  lemma TakeNew(seen: map<EntryKey, Entry>, es: seq<Entry>, e: Entry)
    requires HoldsFirst(seen, es) && KeyOf(e) !in seen
    ensures HoldsFirst(seen[KeyOf(e) := e], es + [e])
  {
    forall k | k in seen ensures FirstSeen(es + [e], seen[k]) {
      FirstSeenSnoc(es, e, seen[k]);
    }
    FirstSeenNew(es, e);
  }

  lemma TakeLine(seen: map<EntryKey, Entry>, lines: seq<Line>, l: Line)
    requires HoldsFirst(seen, Entries(lines)) && l.Record?
    ensures var k := KeyOf(l.entry); HoldsFirst(if k in seen then seen else seen[k := l.entry], Entries(lines + [l]))
  {
    EntriesSnoc(lines, l);
    if KeyOf(l.entry) in seen {
      TakeKnown(seen, Entries(lines), l.entry);
    } else {
      TakeNew(seen, Entries(lines), l.entry);
    }
  }

  // ---------------------------------------------------------------------------
  // The specification of merge
  // ---------------------------------------------------------------------------

  /** The error the first bad fragment or line gives rise to. */
  function ReadError(fragments: seq<Fragment>): Option<AuditError> {
    if fragments == [] then None
    else if fragments[0].Unreadable? then Some(Io)
    else if !AllParse(fragments[0].lines) then Some(Json)
    else ReadError(fragments[1..])
  }

  /** Fragment i is the first that cannot be read, or holds a line that does not parse. */
  ghost predicate FirstBad(fragments: seq<Fragment>, i: nat, error: AuditError) {
    && i < |fragments|
    && (forall j :: 0 <= j < i ==> fragments[j].Readable? && Garbage !in fragments[j].lines)
    && if fragments[i].Unreadable? then error == Io else Garbage in fragments[i].lines && error == Json
  }

  lemma {:induction false} ReadErrorMeans(fragments: seq<Fragment>)
    ensures ReadError(fragments).None? <==> forall i :: 0 <= i < |fragments| ==> fragments[i].Readable? && Garbage !in fragments[i].lines
    ensures ReadError(fragments).Some? ==> exists i: nat :: FirstBad(fragments, i, ReadError(fragments).value)
  {
    if fragments != [] {
      var f, rest := fragments[0], fragments[1..];
      ReadErrorMeans(rest);
      if f.Unreadable? || !AllParse(f.lines) {
        assert FirstBad(fragments, 0, ReadError(fragments).value);
      } else {
        assert forall i :: 0 < i < |fragments| ==> fragments[i] == rest[i - 1];
        if ReadError(rest).Some? {
          var i: nat :| FirstBad(rest, i, ReadError(rest).value);
          assert FirstBad(fragments, i + 1, ReadError(fragments).value);
        }
      }
    }
  }

  /** out is what merging these lines must write: one entry per key, the first, in strict order. */
  ghost predicate IsMerge(out: seq<Entry>, lines: seq<Line>) {
    Sorted(out) && forall e :: e in out <==> FirstSeen(Entries(lines), e)
  }

  function AsLines(es: seq<Entry>): seq<Line> {
    seq(|es|, i requires 0 <= i < |es| => Record(es[i]))
  }

  lemma {:induction false} EntriesOfAsLines(es: seq<Entry>)
    ensures Entries(AsLines(es)) == es && AllParse(AsLines(es))
  {
    if es != [] {
      var init := es[..|es| - 1];
      EntriesOfAsLines(init);
      assert AsLines(es) == AsLines(init) + [Record(es[|es| - 1])];
      EntriesSnoc(AsLines(init), Record(es[|es| - 1]));
    }
  }

  /** There is only one such output, so it cannot depend on the order of a hash map. */
  lemma MergeIsUnique(out: seq<Entry>, other: seq<Entry>, lines: seq<Line>)
    requires IsMerge(out, lines) && IsMerge(other, lines)
    ensures out == other
  {
    SortedUnique(out, other);
  }

  /** The order of the output: by timestamp as text, then by number, then by device as text. */
  lemma MergeOrder(out: seq<Entry>, lines: seq<Line>, i: nat, j: nat)
    requires IsMerge(out, lines) && i < j < |out|
    ensures var a, b := out[i].body, out[j].body;
            || (exists k: nat :: DiffersAt(a.timestamp, b.timestamp, k))
            || (a.timestamp == b.timestamp && a.seqNo < b.seqNo)
            || (a.timestamp == b.timestamp && a.seqNo == b.seqNo && exists k: nat :: DiffersAt(a.deviceId, b.deviceId, k))
  {
    var a, b := out[i].body, out[j].body;
    assert Before(out[i], out[j]);
    TextBeforeMeans(a.timestamp, b.timestamp);
    TextBeforeMeans(a.deviceId, b.deviceId);
  }

  /** The entry is at position i, and none before it has its device and number. */
  ghost predicate FirstAt(es: seq<Entry>, i: nat, e: Entry) {
    && i < |es| && es[i] == e
    && forall j :: 0 <= j < i ==> es[j].body.deviceId != e.body.deviceId || es[j].body.seqNo != e.body.seqNo
  }

  ghost predicate IsFirst(es: seq<Entry>, e: Entry) {
    exists i: nat :: FirstAt(es, i, e)
  }

  lemma FirstSeenMeans(es: seq<Entry>, e: Entry)
    ensures FirstSeen(es, e) <==> IsFirst(es, e)
  {
    if FirstSeen(es, e) {
      var i: nat :| i < |es| && es[i] == e && forall j :: 0 <= j < i ==> KeyOf(es[j]) != KeyOf(e);
      assert FirstAt(es, i, e);
    }
    if i: nat :| FirstAt(es, i, e) {
      assert es[i] == e && forall j :: 0 <= j < i ==> KeyOf(es[j]) != KeyOf(e);
    }
  }

  /** The first entry of each device and number wins: the output holds these, and nothing else. */
  lemma FirstWins(out: seq<Entry>, lines: seq<Line>, e: Entry)
    requires IsMerge(out, lines)
    ensures e in out <==> IsFirst(Entries(lines), e)
  {
    FirstSeenMeans(Entries(lines), e);
  }

  /** Two entries of the output never share a device and number. */
  lemma MergeHasNoDuplicates(out: seq<Entry>, lines: seq<Line>, i: nat, j: nat)
    requires IsMerge(out, lines) && i < j < |out|
    ensures out[i].body.deviceId != out[j].body.deviceId || out[i].body.seqNo != out[j].body.seqNo
  {
    assert out[i] in out && out[j] in out;
    if KeyOf(out[i]) == KeyOf(out[j]) {
      FirstSeenUnique(Entries(lines), out[i], out[j]);
      BeforeIsStrictOrder(out[i], out[j]);
    }
  }

  /** Every key of the input is in the output. */
  lemma MergeCoversKeys(out: seq<Entry>, lines: seq<Line>, i: nat) returns (k: nat)
    requires IsMerge(out, lines) && i < |Entries(lines)|
    ensures k < |out|
    ensures out[k].body.deviceId == Entries(lines)[i].body.deviceId && out[k].body.seqNo == Entries(lines)[i].body.seqNo
  {
    var es := Entries(lines);
    var f := FirstIndex(es, i);
    assert FirstSeen(es, es[f]);
    k :| 0 <= k < |out| && out[k] == es[f];
  }

  lemma {:induction false} FirstIndex(es: seq<Entry>, i: nat) returns (f: nat)
    requires i < |es|
    ensures f <= i && KeyOf(es[f]) == KeyOf(es[i])
    ensures forall j :: 0 <= j < f ==> KeyOf(es[j]) != KeyOf(es[i])
  {
    f := 0;
    while KeyOf(es[f]) != KeyOf(es[i])
      invariant f <= i
      invariant forall j :: 0 <= j < f ==> KeyOf(es[j]) != KeyOf(es[i])
      decreases i - f
    {
      f := f + 1;
    }
  }

  ghost predicate DistinctKeys(es: seq<Entry>) {
    forall i, j :: 0 <= i < j < |es| ==> KeyOf(es[i]) != KeyOf(es[j])
  }

  lemma FirstSeenOfDistinct(es: seq<Entry>)
    requires DistinctKeys(es)
    ensures forall e :: FirstSeen(es, e) <==> e in es
  {
    forall e | e in es ensures FirstSeen(es, e) {
      var i :| 0 <= i < |es| && es[i] == e;
      assert es[i] == e && forall j :: 0 <= j < i ==> KeyOf(es[j]) != KeyOf(e);
    }
  }

  /** Merging a merged file again gives the same file. */
  lemma MergeIsIdempotent(out: seq<Entry>, again: seq<Entry>, lines: seq<Line>)
    requires IsMerge(out, lines)
    requires IsMerge(again, AsLines(out))
    ensures again == out
  {
    EntriesOfAsLines(out);
    forall i, j | 0 <= i < j < |out| ensures KeyOf(out[i]) != KeyOf(out[j]) {
      MergeHasNoDuplicates(out, lines, i, j);
    }
    FirstSeenOfDistinct(out);
    SortedUnique(again, out);
  }

  // ---------------------------------------------------------------------------
  // Rebuilding one device's chain
  // ---------------------------------------------------------------------------

  ghost predicate OneDevice(es: seq<Entry>, deviceId: string) {
    forall i :: 0 <= i < |es| ==> es[i].body.deviceId == deviceId
  }

  ghost predicate TimestampsRise(es: seq<Entry>) {
    forall i, j :: 0 <= i < j < |es| ==> !TextBefore(es[j].body.timestamp, es[i].body.timestamp)
  }

  /** Fragments that hold only entries of the log and together hold all of them. */
  ghost predicate Covers(lines: seq<Line>, es: seq<Entry>) {
    forall e :: e in Entries(lines) <==> e in es
  }

  lemma ChainIsSortedIffTimestampsRise(es: seq<Entry>)
    requires Numbered(es)
    ensures Sorted(es) <==> TimestampsRise(es)
  {
    forall i, j | 0 <= i < j < |es|
      ensures Before(es[i], es[j]) <==> !TextBefore(es[j].body.timestamp, es[i].body.timestamp)
    {
      TextOrder(es[i].body.timestamp, es[j].body.timestamp);
    }
  }

  /**
   Overlapping pieces that together cover a device's log merge back into that very log
   exactly when its timestamps never go down.
   */
  lemma RebuildsIffTimestampsRise(out: seq<Entry>, lines: seq<Line>, es: seq<Entry>, deviceId: string)
    requires Numbered(es) && OneDevice(es, deviceId)
    requires Covers(lines, es) && IsMerge(out, lines)
    ensures out == es <==> TimestampsRise(es)
    ensures forall e :: e in out <==> e in es
  {
    ChainIsSortedIffTimestampsRise(es);
    var fs := Entries(lines);
    forall e | e in es ensures FirstSeen(fs, e) {
      var p :| 0 <= p < |fs| && fs[p] == e;
      var f := FirstIndex(fs, p);
      assert fs[f] in es;
      SameNumberSameEntry(es, fs[f], e);
      assert fs[f] == e;
    }
    if TimestampsRise(es) {
      SortedUnique(out, es);
    }
  }

  lemma SameNumberSameEntry(es: seq<Entry>, e: Entry, f: Entry)
    requires Numbered(es) && e in es && f in es && e.body.seqNo == f.body.seqNo
    ensures e == f
  {
    var i :| 0 <= i < |es| && es[i] == e;
    var j :| 0 <= j < |es| && es[j] == f;
  }

  /**
   The merged file of one device's verifying log verifies exactly when the log's timestamps
   never go down, and then the returned handle is in step with the file, so that appends
   with the same key keep it verifying.
   */
  lemma MergedLogVerifiesIffTimestampsRise<K>(c: Crypto<K>, key: K, out: seq<Entry>, lines: seq<Line>, es: seq<Entry>, deviceId: string, pool: set<Body>)
    requires Chained(c, key, es) && Numbered(es) && OneDevice(es, deviceId) && es != []
    requires Covers(lines, es) && IsMerge(out, lines)
    requires IdealOn(c, pool) && Within(es, pool)
    ensures Verify(c, key, AsLines(out), "").Ok? <==> TimestampsRise(es)
    ensures TimestampsRise(es) ==> HandleAfter(c, out) == OpenOn(c, deviceId, AsLines(out)).handle
  {
    RebuildsIffTimestampsRise(out, lines, es, deviceId);
    EntriesOfAsLines(out);
    VerifiesIffChained(c, key, AsLines(out));
    OnlyPrefixesChain(c, key, es, out, pool);
    SameSize(out, es);
  }

  // ---------------------------------------------------------------------------
  // Merging two devices
  // ---------------------------------------------------------------------------

  /** An entry that claims to be the first of its log, anywhere but at the start, breaks the chain. */
  lemma SecondRootBreaks<K(!new)>(c: Crypto<K>, key: K, out: seq<Entry>, j: nat)
    requires Sound(c) && 0 < j < |out| && out[j].body.prevHash == ""
    ensures !Chained(c, key, out)
  {
    assert !LinkedAt(c, key, out, j);
  }

  lemma FirstEntryIsMerged(lines: seq<Line>, es: seq<Entry>, deviceId: string, out: seq<Entry>) returns (i: nat)
    requires Numbered(es) && OneDevice(es, deviceId) && es != [] && IsMerge(out, lines)
    requires forall e :: e in es ==> e in Entries(lines)
    requires forall e :: e in Entries(lines) && e.body.deviceId == deviceId ==> e in es
    ensures i < |out| && out[i] == es[0]
  {
    var fs, e := Entries(lines), es[0];
    assert e in es;
    var p :| 0 <= p < |fs| && fs[p] == e;
    var f := FirstIndex(fs, p);
    assert fs[f] in fs;
    SameNumberSameEntry(es, fs[f], e);
    assert FirstSeen(fs, e);
    i :| 0 <= i < |out| && out[i] == e;
  }

  /**
   A merge of two devices' logs never verifies, under any key, be it that one key signed
   everything: both logs have a first entry, and a file has one.
   */
  lemma TwoDevicesNeverVerify<K(!new)>(c: Crypto<K>, k1: K, k2: K, key: K, es: seq<Entry>, fs: seq<Entry>, d1: string, d2: string,
                                       lines: seq<Line>, out: seq<Entry>)
    requires Sound(c) && d1 != d2 && es != [] && fs != []
    requires Chained(c, k1, es) && Numbered(es) && OneDevice(es, d1)
    requires Chained(c, k2, fs) && Numbered(fs) && OneDevice(fs, d2)
    requires Covers(lines, es + fs) && IsMerge(out, lines)
    ensures Verify(c, key, AsLines(out), "").Err?
  {
    var i := FirstEntryIsMerged(lines, es, d1, out);
    var j := FirstEntryIsMerged(lines, fs, d2, out);
    assert LinkedAt(c, k1, es, 0) && LinkedAt(c, k2, fs, 0);
    SecondRootBreaks(c, key, out, if i > j then i else j);
    EntriesOfAsLines(out);
    VerifiesIffChained(c, key, AsLines(out));
  }

  // Two timestamps half a second apart as the clock prints them; the later one sorts first.
  const ON_THE_SECOND: string := "2026-01-01T00:00:00Z"
  const HALF_PAST: string := "2026-01-01T00:00:00.5Z"

  lemma {:induction false} TextBeforePrefix(p: string, s: string, t: string)
    ensures TextBefore(p + s, p + t) <==> TextBefore(s, t)
  {
    if p == [] {
      assert p + s == s && p + t == t;
    } else {
      assert (p + s)[1..] == p[1..] + s && (p + t)[1..] == p[1..] + t;
      TextBeforePrefix(p[1..], s, t);
    }
  }

  lemma HalfPastSortsFirst()
    ensures TextBefore(HALF_PAST, ON_THE_SECOND)
  {
    TextBeforePrefix("2026-01-01T00:00:00", ".5Z", "Z");
    assert HALF_PAST == "2026-01-01T00:00:00" + ".5Z" && ON_THE_SECOND == "2026-01-01T00:00:00" + "Z";
  }

  /**
   A clock that runs forward is not enough. Two appends to a new log, half a second apart, make
   a log that verifies and whose merge does not: the text of a whole second has no fraction,
   and sorts behind the fractions of that second.
   */
  lemma MergeBreaksAHalfSecond<K(!new)>(c: Crypto<K>, key: K, deviceId: string, m: Note, n: Note, lines: seq<Line>, out: seq<Entry>)
    requires Sound(c)
    requires m.timestamp == ON_THE_SECOND && n.timestamp == HALF_PAST
    requires lines == RunLog(c, key, OpenOn(c, deviceId, []), [Append(m, Synced), Append(n, Synced)]).lines
    requires IsMerge(out, lines)
    ensures Verify(c, key, lines, "").Ok? && Verify(c, key, AsLines(out), "").Err?
  {
    var h := OpenOn(c, deviceId, []).handle;
    var e := NewEntry(c, key, h, m);
    var f := NewEntry(c, key, Advance(c, h, e), n);
    NewLogVerifies(c, key, deviceId, [Append(m, Synced), Append(n, Synced)]);
    TwoAppends(c, key, deviceId, m, n);
    HalfPastSortsFirst();
    SwappedMerge(e, f, out);
    assert AsLines(out)[0] == Record(f) && f.body.prevHash == c.hash(e.body) != "";
  }

  lemma TwoAppends<K>(c: Crypto<K>, key: K, deviceId: string, m: Note, n: Note)
    ensures var h := OpenOn(c, deviceId, []).handle;
            var e := NewEntry(c, key, h, m);
            RunLog(c, key, OpenOn(c, deviceId, []), [Append(m, Synced), Append(n, Synced)]).lines ==
            AsLines([e, NewEntry(c, key, Advance(c, h, e), n)])
  {
    var start := OpenOn(c, deviceId, []);
    RunLogSnoc(c, key, start, [], Append(m, Synced));
    RunLogSnoc(c, key, start, [] + [Append(m, Synced)], Append(n, Synced));
    assert [] + [Append(m, Synced)] + [Append(n, Synced)] == [Append(m, Synced), Append(n, Synced)];
  }

  lemma SwappedMerge(e: Entry, f: Entry, out: seq<Entry>)
    requires Before(f, e) && KeyOf(e) != KeyOf(f) && IsMerge(out, AsLines([e, f]))
    ensures out == [f, e]
  {
    EntriesOfAsLines([e, f]);
    assert DistinctKeys([e, f]);
    FirstSeenOfDistinct([e, f]);
    assert Sorted([f, e]);
    SortedUnique(out, [f, e]);
  }

  function NotesOf(es: seq<Entry>): seq<Note> {
    seq(|es|, i requires 0 <= i < |es| =>
      Note(es[i].body.event, es[i].body.sessionKeyId, es[i].body.payload, es[i].body.timestamp))
  }

  /**
   A log rebuilt by merging keeps verifying, and numbers on, through any later run with the
   same key that writes nothing over a stale handle.
   */
  lemma RebuiltLogKeepsVerifying<K(!new)>(c: Crypto<K>, key: K, out: seq<Entry>, lines: seq<Line>, es: seq<Entry>, deviceId: string, ops: seq<LogOp>)
    requires Sound(c)
    requires Chained(c, key, es) && Numbered(es) && OneDevice(es, deviceId) && es != [] && TimestampsRise(es)
    requires Covers(lines, es) && IsMerge(out, lines)
    ensures var start := LogState(AsLines(out), HandleAfter(c, out));
            !Broken(ops) ==> Holds(c, key, deviceId, RunLog(c, key, start, ops).lines, NotesOf(es) + Notes(ops))
  {
    RebuildsIffTimestampsRise(out, lines, es, deviceId);
    EntriesOfAsLines(es);
    VerifiesIffChained(c, key, AsLines(es));
    RunVerifies(c, key, LogState(AsLines(out), HandleAfter(c, out)), NotesOf(es), ops);
  }

  lemma {:induction false} MembersCount(es: seq<Entry>)
    requires forall i, j :: 0 <= i < j < |es| ==> es[i] != es[j]
    ensures |set e | e in es| == |es|
  {
    if es != [] {
      var init, last := es[..|es| - 1], es[|es| - 1];
      MembersCount(init);
      assert es == init + [last];
      assert (set e | e in es) == (set e | e in init) + {last};
    }
  }

  lemma SameSize(out: seq<Entry>, es: seq<Entry>)
    requires Sorted(out) && Numbered(es)
    requires forall e :: e in out <==> e in es
    ensures |out| == |es|
  {
    forall i, j | 0 <= i < j < |out| ensures out[i] != out[j] {
      BeforeIsStrictOrder(out[i], out[j]);
    }
    MembersCount(out);
    MembersCount(es);
    assert (set e | e in out) == (set e | e in es);
  }

  /** The handle `merge` returns. */
  function HandleAfter<K>(c: Crypto<K>, out: seq<Entry>): Handle {
    if out == [] then Handle("", "", 0)
    else
      var b := out[|out| - 1].body;
      Handle(b.deviceId, c.hash(b), b.seqNo)
  }

  /** It is the one that opening the merged file with the last entry's device would give. */
  lemma HandleAfterMeans<K>(c: Crypto<K>, out: seq<Entry>)
    ensures HandleAfter(c, out) == OpenOn(c, if out == [] then "" else out[|out| - 1].body.deviceId, AsLines(out)).handle
  {
    EntriesOfAsLines(out);
  }

  // ---------------------------------------------------------------------------
  // The method
  // ---------------------------------------------------------------------------

  /** Puts e into a sorted sequence. */
  function Placed(es: seq<Entry>, e: Entry): seq<Entry> {
    if es == [] then [e]
    else if Before(e, es[0]) then [e] + es
    else [es[0]] + Placed(es[1..], e)
  }

  lemma {:induction false} PlacedSorted(es: seq<Entry>, e: Entry)
    requires Sorted(es)
    requires forall f :: f in es ==> KeyOf(f) != KeyOf(e)
    ensures Sorted(Placed(es, e))
    ensures forall f :: f in Placed(es, e) <==> f in es || f == e
  {
    if es != [] {
      assert es == [es[0]] + es[1..];
      BeforeIsStrictOrder(e, es[0]);
      PlacedSorted(es[1..], e);
      if Before(e, es[0]) {
        forall j | 1 <= j < |es| ensures Before(e, es[j]) {
          BeforeTransitive(e, es[0], es[j]);
        }
      } else {
        var rest := Placed(es[1..], e);
        forall j | 0 <= j < |rest| ensures Before(es[0], rest[j]) {
          assert rest[j] in rest;
        }
      }
    }
  }

  /** Takes the values of the map in whatever order it yields them and sorts them. */
  method SortValues(seen: map<EntryKey, Entry>) returns (out: seq<Entry>)
    requires forall k :: k in seen ==> KeyOf(seen[k]) == k
    ensures Sorted(out)
    ensures forall e :: e in out <==> e in seen.Values
  {
    out := [];
    var todo := seen.Keys;
    while todo != {}
      invariant todo <= seen.Keys
      invariant Sorted(out)
      invariant forall e :: e in out <==> exists k :: k in seen && k !in todo && seen[k] == e
      decreases todo
    {
      var k :| k in todo;
      PlacedSorted(out, seen[k]);
      out := Placed(out, seen[k]);
      todo := todo - {k};
    }
  }

  /** Reads one fragment into the map; first seen wins. */
  method Collect(seen: map<EntryKey, Entry>, lines: seq<Line>, ghost before: seq<Line>)
    returns (r: Result<map<EntryKey, Entry>, AuditError>)
    requires HoldsFirst(seen, Entries(before))
    ensures r.Err? <==> !AllParse(lines)
    ensures r.Err? ==> r.error == Json
    ensures r.Ok? ==> HoldsFirst(r.value, Entries(before + lines))
  {
    var m := seen;
    assert before + lines[..0] == before;
    for i := 0 to |lines|
      invariant AllParse(lines[..i])
      invariant HoldsFirst(m, Entries(before + lines[..i]))
    {
      var l := lines[i];
      assert before + lines[..i + 1] == (before + lines[..i]) + [l];
      if l.Garbage? {
        assert l in lines;
        return Err(Json);
      }
      if l.Record? {
        TakeLine(m, before + lines[..i], l);
        m := if KeyOf(l.entry) in m then m else m[KeyOf(l.entry) := l.entry];
      } else {
        EntriesSnoc(before + lines[..i], l);
      }
    }
    assert lines[..|lines|] == lines;
    r := Ok(m);
  }

  lemma OneFragmentOn(fragments: seq<Fragment>, i: nat)
    requires i < |fragments|
    ensures var f := fragments[i];
            && AllLines(fragments[..i + 1]) == AllLines(fragments[..i]) + (if f.Readable? then f.lines else [])
            && ReadError(fragments[i..]) ==
               if f.Unreadable? then Some(Io) else if !AllParse(f.lines) then Some(Json) else ReadError(fragments[i + 1..])
  {
    assert fragments[i..][1..] == fragments[i + 1..];
    assert fragments[..i + 1][..i] == fragments[..i];
  }

  /** Reads all fragments, in order. */
  method CollectAll(fragments: seq<Fragment>) returns (r: Result<map<EntryKey, Entry>, AuditError>)
    ensures ReadError(fragments).Some? ==> r == Err(ReadError(fragments).value)
    ensures ReadError(fragments).None? ==> r.Ok? && HoldsFirst(r.value, Entries(AllLines(fragments)))
  {
    var seen: map<EntryKey, Entry> := map[];
    assert fragments[0..] == fragments;
    for i := 0 to |fragments|
      invariant HoldsFirst(seen, Entries(AllLines(fragments[..i])))
      invariant ReadError(fragments[i..]) == ReadError(fragments)
    {
      OneFragmentOn(fragments, i);
      if fragments[i].Unreadable? {
        return Err(Io);
      }
      var got := Collect(seen, fragments[i].lines, AllLines(fragments[..i]));
      if got.Err? {
        return Err(got.error);
      }
      seen := got.value;
    }
    assert fragments[..|fragments|] == fragments;
    r := Ok(seen);
  }

  /** `written` says whether the output file could be replaced. */
  method Merge<K>(c: Crypto<K>, fragments: seq<Fragment>, output: LogFile, key: K, written: bool) returns (r: Result<AuditLog<K>, AuditError>)
    modifies output
    ensures ReadError(fragments).Some? ==> r == Err(ReadError(fragments).value)
    ensures ReadError(fragments).None? ==> if written then r.Ok? else r == Err(Io)
    ensures r.Err? ==> output.lines == old(output.lines) && output.present == old(output.present)
    ensures r.Err? ==> (exists i: nat :: FirstBad(fragments, i, r.error)) || (!written && r.error == Io)
    ensures r.Ok? ==>
      && r.value.file == output && r.value.key == key && r.value.c == c
      && output.present
      && exists out ::
           && IsMerge(out, AllLines(fragments))
           && output.lines == AsLines(out)
           && r.value.handle == HandleAfter(c, out)
  {
    ReadErrorMeans(fragments);
    var seen := CollectAll(fragments);
    if seen.Err? {
      return Err(seen.error);
    }
    var out := SortValues(seen.value);
    ValuesAreFirst(seen.value, Entries(AllLines(fragments)));
    assert IsMerge(out, AllLines(fragments));
    if !written {
      return Err(Io);
    }
    output.lines := AsLines(out);
    output.present := true;
    var log := new AuditLog<K>.Resume(c, output, key, HandleAfter(c, out));
    r := Ok(log);
  }
}
