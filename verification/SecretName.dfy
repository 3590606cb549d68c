/**
 Secret names of crates/oc-core/src/paths.rs: `validate_secret_name` and the percent-encoding
 `secret_name_to_filename`, a subset of section 2.1 of RFC 3986.
 */
module SecretName {
  import opened Results

  // ---------------------------------------------------------------------------
  // Encoding
  // ---------------------------------------------------------------------------

  /** `str::replace` of a single character. */
  function Replace(s: string, c: char, text: string): string {
    if s == [] then [] else (if s[0] == c then text else [s[0]]) + Replace(s[1..], c, text)
  }

  function ToFilename(name: string): string {
    Replace(Replace(name, '%', "%25"), '/', "%2F")
  }

  /** The same in one pass. */
  function Encoded(name: string): string {
    if name == [] then []
    else (if name[0] == '%' then "%25" else if name[0] == '/' then "%2F" else [name[0]]) + Encoded(name[1..])
  }

  /** The inverse; a percent sign that starts no escape stands for itself. */
  function Decoded(s: string): string {
    if s == [] then []
    else if |s| >= 3 && s[..3] == "%25" then "%" + Decoded(s[3..])
    else if |s| >= 3 && s[..3] == "%2F" then "/" + Decoded(s[3..])
    else [s[0]] + Decoded(s[1..])
  }

  lemma {:induction false} ReplaceConcat(s: string, t: string, c: char, text: string)
    ensures Replace(s + t, c, text) == Replace(s, c, text) + Replace(t, c, text)
  {
    if s == [] {
      assert s + t == t;
    } else {
      assert (s + t)[1..] == s[1..] + t;
      ReplaceConcat(s[1..], t, c, text);
    }
  }

  /** Two replacements one after the other are one pass. */
  lemma {:induction false} TwoPassesAreOne(name: string)
    ensures ToFilename(name) == Encoded(name)
  {
    if name != [] {
      TwoPassesAreOne(name[1..]);
      var first := if name[0] == '%' then "%25" else [name[0]];
      ReplaceConcat(first, Replace(name[1..], '%', "%25"), '/', "%2F");
      if name[0] == '%' {
        assert Replace("%25", '/', "%2F") == "%25" by {
          assert "%25"[1..] == "25" && "25"[1..] == "5" && "5"[1..] == "";
        }
      } else {
        assert [name[0]][1..] == [];
      }
    }
  }

  lemma {:induction false} DecodeEncoded(name: string)
    ensures Decoded(Encoded(name)) == name
  {
    if name != [] {
      DecodeEncoded(name[1..]);
      var rest := Encoded(name[1..]);
      if name[0] == '%' {
        assert ("%25" + rest)[..3] == "%25" && ("%25" + rest)[3..] == rest;
      } else if name[0] == '/' {
        assert ("%2F" + rest)[..3] == "%2F" && ("%2F" + rest)[3..] == rest;
      } else {
        assert ([name[0]] + rest)[0] == name[0] && ([name[0]] + rest)[1..] == rest;
      }
    }
  }

  lemma {:induction false} EncodedHasNoSlash(name: string)
    ensures '/' !in Encoded(name)
  {
    if name != [] {
      EncodedHasNoSlash(name[1..]);
    }
  }

  /** File names determine secret names and hold no separator. */
  lemma FilenamesAreSafe(a: string, b: string)
    ensures Decoded(ToFilename(a)) == a
    ensures ToFilename(a) == ToFilename(b) ==> a == b
    ensures '/' !in ToFilename(a)
  {
    TwoPassesAreOne(a);
    TwoPassesAreOne(b);
    DecodeEncoded(a);
    DecodeEncoded(b);
    EncodedHasNoSlash(a);
  }

  /**
   What the encoding is: character by character, "%25" for a percent sign, "%2F" for a slash, and
   every other character as it stands.
   */
  lemma EncodesEachCharacter(name: string, c: char)
    ensures ToFilename("") == "" && ToFilename("%") == "%25" && ToFilename("/") == "%2F"
    ensures c != '%' && c != '/' ==> ToFilename([c]) == [c]
    ensures ToFilename(name + [c]) == ToFilename(name) + ToFilename([c])
  {
    TwoPassesAreOne("");
    TwoPassesAreOne("%");
    TwoPassesAreOne("/");
    TwoPassesAreOne([c]);
    TwoPassesAreOne(name);
    TwoPassesAreOne(name + [c]);
    assert "%"[1..] == "" && "/"[1..] == "" && [c][1..] == [];
    EncodedSnoc(name, c);
  }

  lemma {:induction false} EncodedSnoc(name: string, c: char)
    ensures Encoded(name + [c]) == Encoded(name) + Encoded([c])
  {
    if name == [] {
      assert name + [c] == [c];
    } else {
      assert (name + [c])[1..] == name[1..] + [c];
      EncodedSnoc(name[1..], c);
    }
  }

  // ---------------------------------------------------------------------------
  // What a valid name is
  // ---------------------------------------------------------------------------

  /** Unicode White_Space, which `str::trim` strips. */
  predicate IsSpace(c: char) {
    || '\U{0009}' <= c <= '\U{000D}' || c == ' ' || c == '\U{0085}' || c == '\U{00A0}' || c == '\U{1680}'
    || '\U{2000}' <= c <= '\U{200A}' || c == '\U{2028}' || c == '\U{2029}' || c == '\U{202F}'
    || c == '\U{205F}' || c == '\U{3000}'
  }

  predicate Blank(s: string) {
    forall i :: 0 <= i < |s| ==> IsSpace(s[i])
  }

  function CharBytes(c: char): nat {
    if c < '\U{0080}' then 1 else if c < '\U{0800}' then 2 else if c < '\U{10000}' then 3 else 4
  }

  /** Length in UTF-8 bytes. */
  function ByteLength(s: string): nat {
    if s == [] then 0 else CharBytes(s[0]) + ByteLength(s[1..])
  }

  /** The 25 characters with the Unicode property White_Space. */
  lemma WhiteSpace(c: char)
    ensures IsSpace(c) <==>
            c as int in {0x9, 0xA, 0xB, 0xC, 0xD, 0x20, 0x85, 0xA0, 0x1680, 0x2000, 0x2001, 0x2002, 0x2003, 0x2004, 0x2005,
                         0x2006, 0x2007, 0x2008, 0x2009, 0x200A, 0x2028, 0x2029, 0x202F, 0x205F, 0x3000}
  {
  }

  /** How many characters lie at or above this code point. */
  function CountFrom(s: string, least: int): nat {
    if s == [] then 0 else (if s[0] as int >= least then 1 else 0) + CountFrom(s[1..], least)
  }

  /** In UTF-8 a character takes one byte, and one more from each of U+0080, U+0800 and U+10000 on. */
  lemma {:induction false} ByteLengthMeans(s: string)
    ensures ByteLength(s) == |s| + CountFrom(s, 0x80) + CountFrom(s, 0x800) + CountFrom(s, 0x10000)
  {
    if s != [] {
      ByteLengthMeans(s[1..]);
    }
  }

  const FORBIDDEN: string := ['\0', '\n', '\r', '\\', ':', '*', '?', '\"', '<', '>', '|']

  predicate Free(s: string) {
    forall i :: 0 <= i < |s| ==> s[i] !in FORBIDDEN
  }

  predicate StartsWith(s: string, c: char) {
    s != [] && s[0] == c
  }

  predicate EndsWith(s: string, c: char) {
    s != [] && s[|s| - 1] == c
  }

  /** `str::split` at a character. */
  function Split(s: string, c: char): (parts: seq<string>)
    ensures parts != []
  {
    if s == [] then [""]
    else
      var rest := Split(s[1..], c);
      if s[0] == c then [""] + rest else [[s[0]] + rest[0]] + rest[1..]
  }

  function Upper(s: string): (u: string)
    ensures |u| == |s|
  {
    if s == [] then []
    else [if 'a' <= s[0] <= 'z' then 'A' + (s[0] - 'a') else s[0]] + Upper(s[1..])
  }

  /** A device name that Windows reserves, whatever the extension. */
  predicate Reserved(segment: string) {
    var stem := Upper(Split(segment, '.')[0]);
    || stem in {"CON", "PRN", "AUX", "NUL"}
    || (|stem| == 4 && stem[..3] in {"COM", "LPT"} && '1' <= stem[3] <= '9')
  }

  /** s is t, in capitals here, whatever the case of its ASCII letters. */
  predicate SameLetters(s: string, t: string) {
    |s| == |t| && forall i :: 0 <= i < |s| ==> s[i] == t[i] || ('A' <= t[i] <= 'Z' && s[i] as int == t[i] as int + 32)
  }

  predicate NoLowerCase(t: string) {
    forall i :: 0 <= i < |t| ==> !('a' <= t[i] <= 'z')
  }

  lemma {:induction false} UpperMeans(s: string, t: string)
    requires NoLowerCase(t)
    ensures Upper(s) == t <==> SameLetters(s, t)
  {
    if s != [] && t != [] {
      UpperMeans(s[1..], t[1..]);
      assert Upper(s)[0] == t[0] <==> s[0] == t[0] || ('A' <= t[0] <= 'Z' && s[0] as int == t[0] as int + 32);
      assert t == [t[0]] + t[1..];
      assert Upper(s)[1..] == Upper(s[1..]);
      assert SameLetters(s, t) ==> SameLetters(s[1..], t[1..]) by {
        assert forall i :: 0 <= i < |s[1..]| ==> s[1..][i] == s[i + 1];
      }
      if SameLetters(s[1..], t[1..]) && |s| == |t| {
        assert forall i :: 0 < i < |s| ==> s[i] == s[1..][i - 1] && t[i] == t[1..][i - 1];
      }
    }
  }

  lemma {:induction false} UpperTake(s: string, n: nat)
    requires n <= |s|
    ensures Upper(s)[..n] == Upper(s[..n])
  {
    if n > 0 {
      UpperTake(s[1..], n - 1);
      assert s[..n][1..] == s[1..][..n - 1];
      assert Upper(s)[..n] == [Upper(s)[0]] + Upper(s[1..])[..n - 1];
    }
  }

  lemma {:induction false} UpperAt(s: string, i: nat)
    requires i < |s|
    ensures '0' <= Upper(s)[i] <= '9' || '0' <= s[i] <= '9' ==> Upper(s)[i] == s[i]
  {
    if i > 0 {
      UpperAt(s[1..], i - 1);
    }
  }

  /** The part of the segment before its first dot. */
  predicate IsStem(segment: string, stem: string) {
    '.' !in stem && (segment == stem || stem + "." <= segment)
  }

  lemma {:induction false} StemIsFirstPart(segment: string, stem: string)
    requires IsStem(segment, stem)
    ensures Split(segment, '.')[0] == stem
    decreases |stem|
  {
    if stem != [] {
      assert segment[0] == stem[0];
      if segment != stem {
        assert segment[..|stem| + 1] == stem + ".";
        assert segment[1..][..|stem|] == stem[1..] + ".";
      }
      StemIsFirstPart(segment[1..], stem[1..]);
      assert stem == [stem[0]] + stem[1..];
    } else if segment != stem {
      assert segment[0] == (stem + ".")[0];
    }
  }

  /**
   Which segments Windows reserves: those whose part before the first dot is CON, PRN, AUX or NUL,
   or COM or LPT and a digit from 1 to 9, in letters of either case.
   */
  lemma ReservedMeans(segment: string, stem: string)
    requires IsStem(segment, stem)
    ensures Reserved(segment) <==>
            || SameLetters(stem, "CON") || SameLetters(stem, "PRN") || SameLetters(stem, "AUX") || SameLetters(stem, "NUL")
            || (|stem| == 4 && (SameLetters(stem[..3], "COM") || SameLetters(stem[..3], "LPT")) && stem[3] in "123456789")
  {
    StemIsFirstPart(segment, stem);
    UpperMeans(stem, "CON");
    UpperMeans(stem, "PRN");
    UpperMeans(stem, "AUX");
    UpperMeans(stem, "NUL");
    if |stem| == 4 {
      UpperTake(stem, 3);
      UpperMeans(stem[..3], "COM");
      UpperMeans(stem[..3], "LPT");
      UpperAt(stem, 3);
      OneToNine(stem[3]);
    }
  }

  lemma OneToNine(c: char)
    ensures c in "123456789" <==> '1' <= c <= '9'
  {
    if '1' <= c <= '9' {
      assert "123456789"[c as int - '1' as int] == c;
    }
  }

  /** For instance in small letters, with or without an extension. */
  lemma SmallLettersAreReserved(name: string)
    requires name == "con" || name == "lpt9.txt"
    ensures !Valid(name)
  {
    var stem := if |name| == 3 then name else name[..4];
    assert |name| == 8 ==> stem == "lpt9" && stem + "." <= name && stem[..3] == "lpt";
    ReservedMeans(name, stem);
    ReservedIsNotValid(name);
  }

  lemma ReservedIsNotValid(name: string)
    requires Reserved(name) && '/' !in name
    ensures !Valid(name)
  {
    SplitWhole(name, '/');
    assert name in Split(name, '/');
  }

  /** No valid name holds one of these. */
  lemma ForbiddenCharacters(name: string, i: nat)
    requires Valid(name) && i < |name|
    ensures name[i] != '\0' && name[i] != '\n' && name[i] != '\r' && name[i] != '\\' && name[i] != ':' && name[i] != '*'
    ensures name[i] != '?' && name[i] != '\"' && name[i] != '<' && name[i] != '>' && name[i] != '|'
  {
    assert '\0' == FORBIDDEN[0] && '\n' == FORBIDDEN[1] && '\r' == FORBIDDEN[2] && '\\' == FORBIDDEN[3] && ':' == FORBIDDEN[4];
    assert '*' == FORBIDDEN[5] && '?' == FORBIDDEN[6] && '\"' == FORBIDDEN[7] && '<' == FORBIDDEN[8] && '>' == FORBIDDEN[9] && '|' == FORBIDDEN[10];
  }

  predicate SegmentOk(segment: string) {
    && segment != ""
    && !StartsWith(segment, '.') && !EndsWith(segment, '.')
    && !EndsWith(segment, ' ')
    && !Reserved(segment)
  }

  /** The definition of a valid name, by its segments. */
  predicate Valid(name: string) {
    && !Blank(name)
    && ByteLength(name) <= 1024
    && Free(name)
    && forall segment :: segment in Split(name, '/') ==> SegmentOk(segment)
  }

  lemma SpacedSegment(segment: string)
    requires SegmentOk(segment)
    ensures SegmentOk(" " + segment)
  {
    var spaced := " " + segment;
    assert spaced[1..] == segment;
    var stem := Upper(Split(spaced, '.')[0]);
    assert Split(spaced, '.')[0][0] == ' ';
    assert stem[0] == ' ';
    if |stem| == 4 {
      assert stem[..3][0] == ' ';
    }
  }

  /**
   A segment may start with a space, which the documentation of the validator rules out: put
   one before any valid name that leaves room for it, and the name stays valid.
   */
  lemma LeadingSpaceIsValid(name: string)
    requires Valid(name) && ByteLength(name) < 1024
    ensures Valid(" " + name) && StartsWith(Split(" " + name, '/')[0], ' ')
  {
    var spaced, parts := " " + name, Split(name, '/');
    assert spaced[1..] == name;
    assert Split(spaced, '/') == [" " + parts[0]] + parts[1..];
    assert parts[0] in parts;
    SpacedSegment(parts[0]);
    assert !Blank(spaced) by {
      var i :| 0 <= i < |name| && !IsSpace(name[i]);
      assert spaced[i + 1] == name[i];
    }
    assert Free(spaced) by {
      assert forall i :: 0 < i < |spaced| ==> spaced[i] == name[i - 1];
    }
  }

  lemma {:induction false} SplitWhole(s: string, c: char)
    requires c !in s
    ensures Split(s, c) == [s]
  {
    if s != [] {
      SplitWhole(s[1..], c);
      assert [s[0]] + s[1..] == s;
    }
  }

  /** For instance " a". */
  lemma SpaceBeforeA()
    ensures Valid("a") && Valid(" " + "a")
  {
    SplitWhole("a", '/');
    SplitWhole("a", '.');
    assert "a"[1..] == "";
    assert |Upper("a")| == 1;
    assert !IsSpace("a"[0]);
    LeadingSpaceIsValid("a");
  }

  /** No segment of a valid name is empty, starts with a dot, or ends with a dot or a space. */
  lemma SegmentsOfValid(name: string, segment: string)
    requires Valid(name) && segment in Split(name, '/')
    ensures segment != "" && segment[0] != '.' && segment[|segment| - 1] != '.' && segment[|segment| - 1] != ' '
  {
  }

  lemma {:induction false} AsciiLength(s: string)
    requires forall i :: 0 <= i < |s| ==> s[i] == 'a'
    ensures ByteLength(s) == |s|
  {
    if s != [] {
      AsciiLength(s[1..]);
    }
  }

  /** The limit: a name of n letters a is valid exactly for n from 1 to 1024. */
  lemma LengthLimit(name: string)
    requires forall i :: 0 <= i < |name| ==> name[i] == 'a'
    ensures Valid(name) <==> 1 <= |name| <= 1024
  {
    AsciiLength(name);
    SplitWhole(name, '/');
    if name != [] {
      ReservedMeans(name, name);
      assert !SameLetters(name, "AUX") by {
        if |name| == 3 {
          assert name[1] == 'a' && "AUX"[1] == 'U';
        }
      }
      assert !SameLetters(name, "CON") && !SameLetters(name, "PRN") && !SameLetters(name, "NUL") by {
        if |name| == 3 {
          assert name[0] == 'a' && "CON"[0] == 'C' && "PRN"[0] == 'P' && "NUL"[0] == 'N';
        }
      }
      assert !IsSpace(name[0]);
    }
  }

  // ---------------------------------------------------------------------------
  // The whole-name checks follow from the segments
  // ---------------------------------------------------------------------------

  function Joined(parts: seq<string>, c: char): string
    requires parts != []
  {
    if |parts| == 1 then parts[0] else parts[0] + [c] + Joined(parts[1..], c)
  }

  /** Splitting is the inverse of joining, into parts without the separator. */
  lemma {:induction false} SplitJoin(s: string, c: char)
    ensures Joined(Split(s, c), c) == s
    ensures forall p :: p in Split(s, c) ==> c !in p
  {
    if s != [] {
      var rest := Split(s[1..], c);
      SplitJoin(s[1..], c);
      if s[0] == c {
        assert ([""] + rest)[1..] == rest;
      } else {
        var parts := [[s[0]] + rest[0]] + rest[1..];
        assert parts[1..] == rest[1..];
        assert forall p :: p in parts ==> p == [s[0]] + rest[0] || p in rest;
      }
    }
  }

  lemma {:induction false} FirstSegment(s: string)
    ensures StartsWith(s, '/') ==> Split(s, '/')[0] == ""
    ensures StartsWith(s, '.') ==> StartsWith(Split(s, '/')[0], '.')
  {
  }

  lemma {:induction false} LastSegment(s: string, c: char)
    requires EndsWith(s, c)
    ensures var parts := Split(s, '/'); if c == '/' then parts[|parts| - 1] == "" else EndsWith(parts[|parts| - 1], c)
  {
    if |s| > 1 {
      LastSegment(s[1..], c);
    } else {
      assert s[1..] == [];
    }
  }

  predicate ContainsAt(s: string, i: nat, t: string) {
    i + |t| <= |s| && s[i..i + |t|] == t
  }

  /** `str::contains` of a text. */
  predicate Contains(s: string, t: string) {
    exists i :: 0 <= i <= |s| && ContainsAt(s, i, t)
  }

  lemma LeadingSegment(s: string, mid: string)
    requires ContainsAt(s, 0, mid + "/") && '/' !in mid
    ensures Split(s, '/')[0] == mid
    decreases |mid|
  {
    if mid != [] {
      assert s[0] == (mid + "/")[0];
      assert s[1..][0..|mid|] == (mid + "/")[1..] == mid[1..] + "/";
      LeadingSegment(s[1..], mid[1..]);
      assert mid == [mid[0]] + mid[1..];
    } else {
      assert s[0] == (mid + "/")[0];
    }
  }

  /** What stands between two slashes is a segment, and not the first. */
  lemma {:induction false} BetweenSlashes(s: string, i: nat, mid: string)
    requires ContainsAt(s, i, "/" + mid + "/") && '/' !in mid
    ensures mid in Split(s, '/')[1..]
    decreases i
  {
    var rest := Split(s[1..], '/');
    var t := "/" + mid + "/";
    if i == 0 {
      assert s[0] == t[0];
      assert s[1..][0..|mid| + 1] == t[1..] == mid + "/";
      LeadingSegment(s[1..], mid);
      assert Split(s, '/')[1..] == rest;
    } else {
      assert s[1..][i - 1..i - 1 + |t|] == s[i..i + |t|];
      BetweenSlashes(s[1..], i - 1, mid);
      if s[0] == '/' {
        assert Split(s, '/')[1..] == rest;
      } else {
        assert Split(s, '/')[1..] == rest[1..];
      }
    }
  }

  /** `//`, `/./` and `/../` never occur where every segment is in order. */
  lemma NoDotSegments(s: string)
    requires forall segment :: segment in Split(s, '/') ==> SegmentOk(segment)
    ensures !Contains(s, "//") && !Contains(s, "/./") && !Contains(s, "/../")
  {
    forall i: nat, mid | mid in {"", ".", ".."} ensures !ContainsAt(s, i, "/" + mid + "/") {
      assert !SegmentOk(mid);
      if ContainsAt(s, i, "/" + mid + "/") {
        BetweenSlashes(s, i, mid);
      }
    }
    assert "/" + "" + "/" == "//" && "/" + "." + "/" == "/./" && "/" + ".." + "/" == "/../";
    assert forall i: nat :: !ContainsAt(s, i, "/" + "" + "/");
    assert forall i: nat :: !ContainsAt(s, i, "/" + "." + "/");
    assert forall i: nat :: !ContainsAt(s, i, "/" + ".." + "/");
  }

  /** The checks of the whole name that the source makes before it looks at segments are implied. */
  lemma WholeNameChecksAreImplied(s: string)
    requires forall segment :: segment in Split(s, '/') ==> SegmentOk(segment)
    ensures !StartsWith(s, '/') && !EndsWith(s, '/')
    ensures !StartsWith(s, '.') && !EndsWith(s, '.')
    ensures !Contains(s, "//") && !Contains(s, "/./") && !Contains(s, "/../")
  {
    var parts := Split(s, '/');
    assert SegmentOk(parts[0]) && SegmentOk(parts[|parts| - 1]);
    FirstSegment(s);
    if EndsWith(s, '/') {
      LastSegment(s, '/');
    }
    if EndsWith(s, '.') {
      LastSegment(s, '.');
    }
    NoDotSegments(s);
  }

  /** Where a secret is stored. */
  function EntryFile(name: string): string {
    ToFilename(name) + ".age"
  }

  /** A valid name is stored under a name of its own that a directory walk shows: not hidden, no separator. */
  lemma ValidNamesAreListed(a: string, b: string)
    requires Valid(a) && Valid(b)
    ensures !StartsWith(EntryFile(a), '.') && '/' !in EntryFile(a)
    ensures EntryFile(a) == EntryFile(b) ==> a == b
  {
    FilenamesAreSafe(a, b);
    TwoPassesAreOne(a);
    WholeNameChecksAreImplied(a);
    if EntryFile(a) == EntryFile(b) {
      var m, n := |ToFilename(a)|, |ToFilename(b)|;
      assert m + 4 == |EntryFile(a)| == |EntryFile(b)| == n + 4;
      assert EntryFile(a)[..m] == ToFilename(a) && EntryFile(b)[..n] == ToFilename(b);
    }
  }

  // ---------------------------------------------------------------------------
  // The validator
  // ---------------------------------------------------------------------------

  datatype Reason =
    | EmptyOrBlank | TooLong | ForbiddenCharacter | EdgeSlash | EdgeDot | DotOrEmptySegment
    | BadSegment | TrailingSpace | ReservedDevice

  /** The reason given is true of the name. */
  ghost predicate Explains(name: string, reason: Reason) {
    match reason
    case EmptyOrBlank => Blank(name)
    case TooLong => ByteLength(name) > 1024
    case ForbiddenCharacter => !Free(name)
    case EdgeSlash => StartsWith(name, '/') || EndsWith(name, '/')
    case EdgeDot => StartsWith(name, '.') || EndsWith(name, '.')
    case TrailingSpace => exists segment :: segment in Split(name, '/') && EndsWith(segment, ' ')
    case ReservedDevice => exists segment :: segment in Split(name, '/') && Reserved(segment)
    case _ => exists segment :: segment in Split(name, '/') && !SegmentOk(segment)
  }

  predicate StartsWithText(s: string, t: string) {
    |t| <= |s| && s[..|t|] == t
  }

  lemma FourBytes(stem: string)
    requires |stem| >= 3 && stem[0] < '\U{0080}' && stem[1] < '\U{0080}' && stem[2] < '\U{0080}'
    ensures ByteLength(stem) == 4 ==> |stem| == 4
    ensures |stem| == 4 && stem[3] < '\U{0080}' ==> ByteLength(stem) == 4
  {
    var one, two, tail := stem[1..], stem[2..], stem[3..];
    assert one[1..] == two && two[1..] == tail;
    assert ByteLength(stem) == 1 + ByteLength(one);
    assert ByteLength(one) == 1 + ByteLength(two);
    assert ByteLength(two) == 1 + ByteLength(tail);
    if |tail| >= 2 {
      assert ByteLength(tail) >= 2;
    }
  }

  /** The test of the source, on the bytes of the stem. */
  method IsReserved(segment: string) returns (reserved: bool)
    ensures reserved == Reserved(segment)
  {
    var stem := Upper(Split(segment, '.')[0]);
    if stem == "CON" || stem == "PRN" || stem == "AUX" || stem == "NUL" {
      return true;
    }
    if StartsWithText(stem, "COM") || StartsWithText(stem, "LPT") {
      assert stem[0] == stem[..3][0] && stem[1] == stem[..3][1] && stem[2] == stem[..3][2];
      FourBytes(stem);
      reserved := ByteLength(stem) == 4 && '0' <= stem[3] <= '9' && stem[3] != '0';
    } else {
      reserved := false;
    }
  }

  method Validate(name: string) returns (r: Result<(), Reason>)
    ensures r.Ok? <==> Valid(name)
    ensures r.Err? ==> Explains(name, r.error)
  {
    if forall segment :: segment in Split(name, '/') ==> SegmentOk(segment) {
      WholeNameChecksAreImplied(name);
    }
    if Blank(name) {
      return Err(EmptyOrBlank);
    }
    if ByteLength(name) > 1024 {
      return Err(TooLong);
    }
    for i := 0 to |FORBIDDEN|
      invariant forall j, k :: 0 <= j < |name| && 0 <= k < i ==> name[j] != FORBIDDEN[k]
    {
      if FORBIDDEN[i] in name {
        return Err(ForbiddenCharacter);
      }
    }
    assert Free(name);
    if StartsWith(name, '/') || EndsWith(name, '/') {
      return Err(EdgeSlash);
    }
    if StartsWith(name, '.') || EndsWith(name, '.') {
      return Err(EdgeDot);
    }
    if Contains(name, "//") || Contains(name, "/./") || Contains(name, "/../") {
      return Err(DotOrEmptySegment);
    }
    var segments := Split(name, '/');
    for i := 0 to |segments|
      invariant forall j :: 0 <= j < i ==> SegmentOk(segments[j])
    {
      var segment := segments[i];
      assert segment in segments;
      if segment == "" {
        return Err(DotOrEmptySegment);
      }
      if segment == "." || segment == ".." {
        return Err(DotOrEmptySegment);
      }
      if StartsWith(segment, '.') || EndsWith(segment, '.') {
        return Err(BadSegment);
      }
      if EndsWith(segment, ' ') {
        return Err(TrailingSpace);
      }
      var reserved := IsReserved(segment);
      if reserved {
        return Err(ReservedDevice);
      }
    }
    r := Ok(());
  }
}
