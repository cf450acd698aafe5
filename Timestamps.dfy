/**
  The tolerant timestamp parser `format_timestamp` (modules/repoparser.py:13-44).

  The string rewriting that cleans a timestamp is modelled exactly. The three
  library parsers it falls back through (`datetime.fromisoformat`, the strict
  `strptime(_, "%Y-%m-%d")`) and the conversion to America/New_York are the
  uninterpreted functions of a `Calendar`.
*/
module Timestamps {
  import opened Wrappers
  import opened Exceptions

  // ---------------------------------------------------------------------------
  // String rewriting
  // ---------------------------------------------------------------------------

  /** The characters for which Python's `str.isspace()` holds. */
  predicate IsSpace(c: char) {
    c == ' ' || ('\t' <= c <= '\r') || ('\U{1c}' <= c <= '\U{1f}') || c == '\U{85}' || c == '\U{a0}'
    || c == '\U{1680}' || ('\U{2000}' <= c <= '\U{200a}') || c == '\U{2028}' || c == '\U{2029}'
    || c == '\U{202f}' || c == '\U{205f}' || c == '\U{3000}'
  }

  /** The number of whitespace characters `s` starts with. */
  function LeadingSpace(s: string): (n: nat)
    ensures n <= |s|
    ensures forall k :: 0 <= k < n ==> IsSpace(s[k])
    ensures n < |s| ==> !IsSpace(s[n])
  {
    if |s| > 0 && IsSpace(s[0]) then 1 + LeadingSpace(s[1..]) else 0
  }

  /** The length of `s` once its trailing whitespace is removed. */
  function TrailingSpaceStart(s: string): (n: nat)
    ensures n <= |s|
    ensures forall k :: n <= k < |s| ==> IsSpace(s[k])
    ensures n > 0 ==> !IsSpace(s[n - 1])
  {
    if |s| > 0 && IsSpace(s[|s| - 1]) then TrailingSpaceStart(s[..|s| - 1]) else |s|
  }

  /** Everything of `s` outside `s[i..j]` is whitespace. */
  predicate SpaceOutside(s: string, i: nat, j: nat)
    requires i <= j <= |s|
  {
    (forall k :: 0 <= k < i ==> IsSpace(s[k])) && (forall k :: j <= k < |s| ==> IsSpace(s[k]))
  }

  /**
    `s.strip()`: the slice of `s` left once the whitespace at either end is
    removed, which itself neither starts nor ends with whitespace.
  */
  function Strip(s: string): (r: string)
    ensures exists i, j :: 0 <= i <= j <= |s| && r == s[i..j] && SpaceOutside(s, i, j)
    ensures r == [] || (!IsSpace(r[0]) && !IsSpace(r[|r| - 1]))
  {
    var i := LeadingSpace(s);
    var t := s[i..];
    var n := TrailingSpaceStart(t);
    assert t[..n] == s[i..i + n];
    assert forall k :: i + n <= k < |s| ==> s[k] == t[k - i];
    assert SpaceOutside(s, i, i + n);
    t[..n]
  }

  /** A string with no whitespace at either end is its own `strip()`. */
  lemma {:induction false} StripUnchanged(s: string)
    requires s == [] || (!IsSpace(s[0]) && !IsSpace(s[|s| - 1]))
    ensures Strip(s) == s
  {
    assert s[LeadingSpace(s)..] == s;
  }

  /** `s.replace("Z", "+00:00")`: every `Z`, wherever it stands, not only a trailing one. */
  function ReplaceZ(s: string): (r: string)
    ensures 'Z' !in r
    ensures |r| >= |s|
  {
    if s == [] then [] else (if s[0] == 'Z' then "+00:00" else [s[0]]) + ReplaceZ(s[1..])
  }

  /** The rewrite works character by character ... */
  lemma {:induction false} ReplaceZAppend(a: string, b: string)
    ensures ReplaceZ(a + b) == ReplaceZ(a) + ReplaceZ(b)
  {
    if a == [] {
      assert a + b == b;
    } else {
      var head := if a[0] == 'Z' then "+00:00" else [a[0]];
      assert (a + b)[0] == a[0] && (a + b)[1..] == a[1..] + b;
      assert head + (ReplaceZ(a[1..]) + ReplaceZ(b)) == (head + ReplaceZ(a[1..])) + ReplaceZ(b);
      assert ReplaceZ(a + b) == head + ReplaceZ(a[1..] + b);
      assert ReplaceZ(a) == head + ReplaceZ(a[1..]);
      ReplaceZAppend(a[1..], b);
    }
  }

  /** One character on its own: `Z` becomes `+00:00`, any other stays. */
  lemma ReplaceZChar(c: char)
    ensures ReplaceZ([c]) == if c == 'Z' then "+00:00" else [c]
  {
    assert [c][1..] == [];
  }

  /** A `Z` anywhere, between any two strings, becomes `+00:00`. */
  lemma ReplaceZAt(a: string, b: string)
    ensures ReplaceZ(a + "Z" + b) == ReplaceZ(a) + "+00:00" + ReplaceZ(b)
  {
    ReplaceZAppend(a + "Z", b);
    ReplaceZAppend(a, "Z");
    ReplaceZChar('Z');
  }

  /** ... and leaves every character other than `Z` where it is. */
  lemma {:induction false} ReplaceZUnchanged(s: string)
    requires 'Z' !in s
    ensures ReplaceZ(s) == s
  {
    if s != [] {
      assert s[0] != 'Z' && 'Z' !in s[1..];
      ReplaceZUnchanged(s[1..]);
    }
  }

  /** `s.index(c)`, or `None` when `c not in s`. */
  function IndexOf(s: string, c: char): (r: Option<nat>)
    ensures r.None? <==> c !in s
    ensures r.Some? ==> r.value < |s| && s[r.value] == c && c !in s[..r.value]
  {
    if s == [] then None
    else if s[0] == c then Some(0)
    else match IndexOf(s[1..], c)
      case None => None
      case Some(i) =>
        assert s[..i + 1] == [s[0]] + s[1..][..i];
        Some(i + 1)
  }

  /** The first occurrence of `c` in `a + [c] + b` is the one between them. */
  lemma {:induction false} IndexOfFirst(a: string, c: char, b: string)
    requires c !in a
    ensures IndexOf(a + [c] + b, c) == Some(|a|)
  {
    if a != [] {
      assert (a + [c] + b)[1..] == a[1..] + [c] + b;
      IndexOfFirst(a[1..], c, b);
    }
  }

  /**
    Lines 19-24: the date and the time part, split on the first `T`, else on
    the first space; without either, the time part is empty.
  */
  function SplitDateTime(s: string): (parts: (string, string))
    ensures 'T' in s ==> parts.0 + "T" + parts.1 == s && 'T' !in parts.0
    ensures 'T' !in s && ' ' in s ==> parts.0 + " " + parts.1 == s && ' ' !in parts.0
    ensures 'T' !in s && ' ' !in s ==> parts == (s, "")
  {
    match IndexOf(s, 'T')
    case Some(i) =>
      assert s[..i] + "T" + s[i + 1..] == s;
      (s[..i], s[i + 1..])
    case None =>
      match IndexOf(s, ' ')
      case Some(i) =>
        assert s[..i] + " " + s[i + 1..] == s;
        (s[..i], s[i + 1..])
      case None => (s, "")
  }

  /** The inverse of `Split`: the pieces with `sep` between each two. */
  function Join(pieces: seq<string>, sep: char): string
    requires |pieces| >= 1
  {
    if |pieces| == 1 then pieces[0] else pieces[0] + [sep] + Join(pieces[1..], sep)
  }

  /** No piece contains `sep`. */
  predicate NoSep(pieces: seq<string>, sep: char) {
    forall k :: 0 <= k < |pieces| ==> sep !in pieces[k]
  }

  /** `s.split(sep)`: the pieces of `s` between the occurrences of `sep`. */
  function Split(s: string, sep: char): (pieces: seq<string>)
    ensures |pieces| >= 1
    ensures sep !in s ==> pieces == [s]
    decreases |s|
  {
    match IndexOf(s, sep)
    case None => [s]
    case Some(i) => [s[..i]] + Split(s[i + 1..], sep)
  }

  /** The pieces hold no `sep`. */
  lemma {:induction false} SplitNoSep(s: string, sep: char)
    ensures NoSep(Split(s, sep), sep)
    decreases |s|
  {
    match IndexOf(s, sep)
    case None =>
    case Some(i) =>
      var rest := Split(s[i + 1..], sep);
      SplitNoSep(s[i + 1..], sep);
      var pieces := [s[..i]] + rest;
      assert Split(s, sep) == pieces;
      forall k | 0 <= k < |pieces| ensures sep !in pieces[k] {
        if k > 0 {
          assert pieces[k] == rest[k - 1];
        }
      }
  }

  /** Joining the pieces with `sep` gives `s` back. */
  lemma {:induction false} SplitJoinBack(s: string, sep: char)
    ensures Join(Split(s, sep), sep) == s
    decreases |s|
  {
    match IndexOf(s, sep)
    case None =>
    case Some(i) =>
      var first, after := s[..i], s[i + 1..];
      assert s == first + [sep] + after;
      SplitJoinBack(after, sep);
      JoinCons(first, Split(after, sep), sep);
  }

  /** Joining a first piece in front of more pieces. */
  lemma JoinCons(first: string, rest: seq<string>, sep: char)
    requires |rest| >= 1
    ensures Join([first] + rest, sep) == first + [sep] + Join(rest, sep)
  {
    assert ([first] + rest)[1..] == rest;
  }


  /** The first piece of a split ends at the first separator. */
  lemma SplitCons(first: string, sep: char, rest: string)
    requires sep !in first
    ensures Split(first + [sep] + rest, sep) == [first] + Split(rest, sep)
  {
    var s := first + [sep] + rest;
    assert s[..|first|] == first && s[|first| + 1..] == rest;
    IndexOfFirst(first, sep, rest);
  }

  /** Splitting what was joined gives the pieces back. */
  lemma {:induction false} SplitJoin(pieces: seq<string>, sep: char)
    requires |pieces| >= 1
    requires NoSep(pieces, sep)
    ensures Split(Join(pieces, sep), sep) == pieces
  {
    var first := pieces[0];
    assert sep !in first;
    if |pieces| == 1 {
      assert Join(pieces, sep) == first;
    } else {
      var tail := pieces[1..];
      assert NoSep(tail, sep) by {
        forall k | 0 <= k < |tail| ensures sep !in tail[k] {
          assert tail[k] == pieces[k + 1];
        }
      }
      var rest := Join(tail, sep);
      assert [first] + tail == pieces;
      assert Join(pieces, sep) == first + [sep] + rest;
      SplitCons(first, sep, rest);
      SplitJoin(tail, sep);
    }
  }

  /** `n` zeros. */
  function Zeros(n: nat): (r: string)
    ensures |r| == n
    ensures forall k :: 0 <= k < n ==> r[k] == '0'
    ensures forall c :: c in r ==> c == '0'
  {
    if n == 0 then [] else "0" + Zeros(n - 1)
  }

  /** `s.zfill(width)`: zeros on the left up to `width`, after a leading sign if there is one. */
  function Zfill(s: string, width: nat): (r: string)
    ensures |r| == if |s| < width then width else |s|
    ensures |s| >= width ==> r == s
    ensures |s| < width && !(|s| > 0 && (s[0] == '+' || s[0] == '-')) ==>
      && (forall k :: 0 <= k < width - |s| ==> r[k] == '0')
      && r[width - |s|..] == s
    ensures |s| < width && |s| > 0 && (s[0] == '+' || s[0] == '-') ==>
      && r[0] == s[0]
      && (forall k :: 1 <= k <= width - |s| ==> r[k] == '0')
      && r[width - |s| + 1..] == s[1..]
    ensures forall c :: c in r ==> c in s || c == '0'
  {
    if |s| >= width then s
    else if |s| > 0 && (s[0] == '+' || s[0] == '-') then [s[0]] + Zeros(width - |s|) + s[1..]
    else Zeros(width - |s|) + s
  }

  /** Lines 26-30: month and day padded to two characters; pieces after the third dropped. */
  function PadDate(datePart: string): (r: string)
    ensures |Split(datePart, '-')| < 3 ==> r == datePart
  {
    if '-' in datePart then
      var parts := Split(datePart, '-');
      if |parts| >= 3 then parts[0] + "-" + Zfill(parts[1], 2) + "-" + Zfill(parts[2], 2) else datePart
    else
      datePart
  }

  /** Three pieces without `-`, joined by `-`, split back into themselves. */
  lemma {:induction false} SplitThree(year: string, month: string, day: string)
    requires '-' !in year && '-' !in month && '-' !in day
    ensures Split(year + "-" + month + "-" + day, '-') == [year, month, day]
  {
    var pieces := [year, month, day];
    assert pieces[1..] == [month, day] && pieces[1..][1..] == [day];
    assert Join([month, day], '-') == month + "-" + day;
    assert year + "-" + month + "-" + day == year + "-" + (month + "-" + day);
    assert NoSep(pieces, '-');
    SplitJoin(pieces, '-');
  }

  /** A padded date has exactly three pieces: the year, and the padded month and day. */
  lemma {:induction false} PadDatePieces(datePart: string)
    requires |Split(datePart, '-')| >= 3
    ensures var parts := Split(datePart, '-');
      Split(PadDate(datePart), '-') == [parts[0], Zfill(parts[1], 2), Zfill(parts[2], 2)]
  {
    var parts := Split(datePart, '-');
    SplitNoSep(datePart, '-');
    assert '-' !in parts[0] && '-' !in parts[1] && '-' !in parts[2];
    ZfillNoDash(parts[1]);
    ZfillNoDash(parts[2]);
    SplitThree(parts[0], Zfill(parts[1], 2), Zfill(parts[2], 2));
  }

  lemma ZfillNoDash(s: string)
    requires '-' !in s
    ensures '-' !in Zfill(s, 2)
  {
  }

  /** Padding a padded date changes nothing. */
  lemma {:induction false} PadDateIdempotent(datePart: string)
    ensures PadDate(PadDate(datePart)) == PadDate(datePart)
  {
    if '-' in datePart && |Split(datePart, '-')| >= 3 {
      PadDatePieces(datePart);
      var parts := Split(datePart, '-');
      var r := PadDate(datePart);
      assert r[|parts[0]|] == '-';
    }
  }

  predicate IsDigit(c: char) { '0' <= c <= '9' }

  /** `[+-]\d{2}\d{2}` stands in the five characters of `s` that end at `end`. */
  predicate OffsetEndsAt(s: string, end: nat) {
    5 <= end <= |s| && (s[end - 5] == '+' || s[end - 5] == '-')
    && IsDigit(s[end - 4]) && IsDigit(s[end - 3]) && IsDigit(s[end - 2]) && IsDigit(s[end - 1])
  }

  /**
    Where the pattern of line 33 matches, if anywhere: its `$` matches at the
    end of the string and also before a newline that ends it.
  */
  function OffsetEnd(s: string): (r: Option<nat>)
    ensures OffsetEndsAt(s, |s|) ==> r == Some(|s|)
    ensures !OffsetEndsAt(s, |s|) && |s| > 0 && s[|s| - 1] == '\n' && OffsetEndsAt(s, |s| - 1) ==> r == Some(|s| - 1)
    ensures r.Some? ==> OffsetEndsAt(s, r.value)
    ensures r.Some? ==> r.value == |s| || (r.value == |s| - 1 && s[|s| - 1] == '\n')
  {
    if OffsetEndsAt(s, |s|) then Some(|s|)
    else if |s| > 0 && s[|s| - 1] == '\n' && OffsetEndsAt(s, |s| - 1) then Some(|s| - 1)
    else None
  }

  /** Line 33: a trailing `[+-]DDDD` offset becomes `[+-]DD:DD`. */
  function FixOffset(s: string): (r: string)
    ensures OffsetEndsAt(s, |s|) ==> r == s[..|s| - 2] + ":" + s[|s| - 2..]
    ensures !OffsetEndsAt(s, |s|) && |s| > 0 && s[|s| - 1] == '\n' && OffsetEndsAt(s, |s| - 1) ==>
      r == s[..|s| - 3] + ":" + s[|s| - 3..]
    ensures OffsetEnd(s).None? ==> r == s
    ensures |r| == |s| || |r| == |s| + 1
  {
    match OffsetEnd(s)
    case None => s
    case Some(e) => s[..e - 2] + ":" + s[e - 2..]
  }

  /** The rewrite leaves nothing for a second pass to match. */
  lemma {:induction false} FixOffsetIdempotent(s: string)
    ensures FixOffset(FixOffset(s)) == FixOffset(s)
  {
    match OffsetEnd(s)
    case None =>
    case Some(e) =>
      var r := FixOffset(s);
      assert r[e - 2] == ':';
      assert |r| == |s| + 1;
      assert r[|r| - 1] == s[|s| - 1];
      assert OffsetEnd(r).None?;
  }

  /** Lines 18-24: the stripped string, every `Z` rewritten, split into date and time. */
  function PreClean(timestamp: string): (r: (string, string))
    ensures var s := ReplaceZ(Strip(timestamp));
      r.0 + "T" + r.1 == s || r.0 + " " + r.1 == s || r == (s, "")
    ensures 'T' !in r.0
  {
    SplitDateTime(ReplaceZ(Strip(timestamp)))
  }

  /** The date part after line 30: what the strict parse of line 38 reads. */
  function DatePart(timestamp: string): (r: string)
    ensures PadDate(r) == r
  {
    PadDateIdempotent(PreClean(timestamp).0);
    PadDate(PreClean(timestamp).0)
  }

  /** Lines 18-33: the cleaned string that line 36 parses. */
  function Cleaned(timestamp: string): (r: string)
    ensures FixOffset(r) == r
  {
    var timePart := PreClean(timestamp).1;
    var datePart := DatePart(timestamp);
    var joined := if timePart != "" then datePart + "T" + timePart else datePart;
    FixOffsetIdempotent(joined);
    FixOffset(joined)
  }

  /** `YYYY-MM-DD` in ASCII digits. */
  predicate IsIsoDate(d: string) {
    |d| == 10 && d[4] == '-' && d[7] == '-'
    && forall k :: 0 <= k < 10 && k != 4 && k != 7 ==> IsDigit(d[k])
  }

  /** An ISO date splits into year, month and day, already two characters wide. */
  lemma {:induction false} PadIsoDate(d: string)
    requires IsIsoDate(d)
    ensures PadDate(d) == d
  {
    var year, month, day := d[..4], d[5..7], d[8..];
    assert forall k :: 0 <= k < 4 ==> year[k] == d[k];
    assert forall k :: 0 <= k < 2 ==> month[k] == d[k + 5] && day[k] == d[k + 8];
    assert d == year + "-" + month + "-" + day;
    SplitThree(year, month, day);
    assert d[4] in d;
  }

  /** An ISO date holds no `Z`, no `T`, no space, and starts and ends with a digit. */
  lemma IsoDateChars(d: string)
    requires IsIsoDate(d)
    ensures 'Z' !in d && 'T' !in d && ' ' !in d
    ensures !IsSpace(d[0]) && !IsSpace(d[|d| - 1])
  {
    assert forall k :: 0 <= k < |d| ==> d[k] != 'Z' && d[k] != 'T' && d[k] != ' ';
  }

  /** The clean-up leaves a bare ISO date whole, with an empty time part. */
  lemma PreCleanIsoDate(d: string)
    requires IsIsoDate(d)
    ensures PreClean(d) == (d, "")
  {
    IsoDateChars(d);
    StripUnchanged(d);
    ReplaceZUnchanged(d);
  }

  /** Once the clean-up has left an unpadded date with no time, it only fixes the offset. */
  lemma CleanedFromDate(timestamp: string, d: string)
    requires PreClean(timestamp) == (d, "") && PadDate(d) == d
    ensures DatePart(timestamp) == d
    ensures Cleaned(timestamp) == FixOffset(d)
  {
  }

  /** An ISO date ends in `-DD`, which is no offset. */
  lemma IsoDateNoOffset(d: string)
    requires IsIsoDate(d)
    ensures FixOffset(d) == d
  {
    assert !IsDigit(d[7]) && d[9] != '\n';
    assert OffsetEnd(d).None?;
  }

  /** A bare ISO date comes out of the clean-up as it went in. */
  lemma CleanedIsoDate(d: string)
    requires IsIsoDate(d)
    ensures Cleaned(d) == d && DatePart(d) == d
  {
    PreCleanIsoDate(d);
    PadIsoDate(d);
    CleanedFromDate(d, d);
    IsoDateNoOffset(d);
  }

  /** A string ending in `:` and a non-space character holds no trailing offset. */
  lemma NoOffsetAfterColon(s: string)
    requires |s| >= 3 && s[|s| - 3] == ':' && !IsSpace(s[|s| - 1])
    ensures FixOffset(s) == s
  {
    assert !OffsetEndsAt(s, |s|);
    assert s[|s| - 1] != '\n';
    assert OffsetEnd(s).None?;
  }

  /** Once the clean-up has split a timestamp into an unpadded date and a time, it only fixes the offset. */
  lemma CleanedFromParts(timestamp: string, d: string, t: string)
    requires PreClean(timestamp) == (d, t) && PadDate(d) == d && t != ""
    ensures DatePart(timestamp) == d
    ensures Cleaned(timestamp) == FixOffset(d + "T" + t)
  {
  }

  /**
    An ISO date and time whose time part has a `:` third from its end (as
    seconds or an offset with its colon do), does not end in whitespace and
    holds no `Z` comes out of the clean-up as it went in.
  */
  lemma CleanedIsoDateTime(d: string, t: string)
    requires IsIsoDate(d)
    requires |t| >= 3 && t[|t| - 3] == ':' && !IsSpace(t[|t| - 1]) && 'Z' !in t
    ensures Cleaned(d + "T" + t) == d + "T" + t
    ensures DatePart(d + "T" + t) == d
  {
    var s := d + "T" + t;
    assert s[|s| - 3] == t[|t| - 3] && s[|s| - 1] == t[|t| - 1];
    NoOffsetAfterColon(s);
    PreCleanIsoDateTime(d, t);
    PadIsoDate(d);
    CleanedFromParts(s, d, t);
  }

  /** The clean-up splits an ISO date and time at the `T` between them. */
  lemma PreCleanIsoDateTime(d: string, t: string)
    requires IsIsoDate(d)
    requires |t| >= 1 && !IsSpace(t[|t| - 1]) && 'Z' !in t
    ensures PreClean(d + "T" + t) == (d, t)
  {
    var s := d + "T" + t;
    assert s == d + ['T'] + t;
    assert s[..|d|] == d && s[|d| + 1..] == t;
    assert s[0] == d[0] && s[|s| - 1] == t[|t| - 1];
    IsoDateChars(d);
    assert 'Z' !in s by {
      assert forall c :: c in s ==> c in d || c == 'T' || c in t;
    }
    StripUnchanged(s);
    ReplaceZUnchanged(s);
    IndexOfFirst(d, 'T', t);
  }

  // ---------------------------------------------------------------------------
  // Parsing and the time zone
  // ---------------------------------------------------------------------------

  /** The clock a `datetime` reads: none (naive), a fixed UTC offset, or LOCAL_TZ. */
  datatype Tz = Naive | FixedOffset(offset: int) | NewYork

  /**
    A `datetime`: its wall-clock reading, in microseconds from 1970-01-01T00:00
    of its own clock, and its clock. Python orders two values that share one
    `tzinfo` object by their wall clocks, so once every date is in LOCAL_TZ
    `wall` is the order the sort and the merge use.
  */
  datatype DateTime = DateTime(wall: int, tz: Tz)

  /** The library calls `format_timestamp` relies on, as uninterpreted functions. */
  datatype Calendar = Calendar(
    fromIsoFormat: string -> Option<DateTime>,  // `datetime.fromisoformat`; None where it raises ValueError
    strptimeYmd: string -> Option<int>,         // `datetime.strptime(_, "%Y-%m-%d")`: a naive wall clock
    newYorkWallAt: int -> int)                  // America/New_York's wall clock at a UTC reading

  /**
    `datetime.fromtimestamp(0, LOCAL_TZ)`: 1969-12-31T19:00 in New York, which
    was then five hours behind UTC.
  */
  const Epoch: DateTime := DateTime(-18_000_000_000, NewYork)

  /**
    Lines 40-43: a naive value gets LOCAL_TZ attached and keeps its wall clock;
    an aware one is converted and keeps its instant.
  */
  function InNewYork(cal: Calendar, dt: DateTime): (r: DateTime)
    ensures r.tz == NewYork
    ensures dt.tz == Naive ==> r.wall == dt.wall
    ensures dt.tz.FixedOffset? ==> r.wall == cal.newYorkWallAt(dt.wall - dt.tz.offset)
    ensures dt.tz == NewYork ==> r == dt
  {
    match dt.tz
    case Naive => DateTime(dt.wall, NewYork)
    case FixedOffset(offset) => DateTime(cal.newYorkWallAt(dt.wall - offset), NewYork)
    case NewYork => dt
  }

  /**
    What `format_timestamp` returns: the first of the three parses that
    succeeds, in LOCAL_TZ; ValueError when none does.
  */
  function NormalizedTimestamp(cal: Calendar, timestamp: string): (r: Result<DateTime, PyError>)
    ensures r.Ok? ==> r.value.tz == NewYork
    ensures r.Err? <==> cal.fromIsoFormat(timestamp).None? && cal.fromIsoFormat(Cleaned(timestamp)).None?
                        && cal.strptimeYmd(DatePart(timestamp)).None?
    ensures r.Err? ==> r.error == ValueError
    ensures cal.fromIsoFormat(timestamp).Some? ==> r == Ok(InNewYork(cal, cal.fromIsoFormat(timestamp).value))
    ensures cal.fromIsoFormat(timestamp).None? && cal.fromIsoFormat(Cleaned(timestamp)).Some? ==>
      r == Ok(InNewYork(cal, cal.fromIsoFormat(Cleaned(timestamp)).value))
    ensures cal.fromIsoFormat(timestamp).None? && cal.fromIsoFormat(Cleaned(timestamp)).None?
            && cal.strptimeYmd(DatePart(timestamp)).Some? ==>
      r == Ok(DateTime(cal.strptimeYmd(DatePart(timestamp)).value, NewYork))
  {
    match cal.fromIsoFormat(timestamp)
    case Some(dt) => Ok(InNewYork(cal, dt))
    case None =>
      match cal.fromIsoFormat(Cleaned(timestamp))
      case Some(dt) => Ok(InNewYork(cal, dt))
      case None =>
        match cal.strptimeYmd(DatePart(timestamp))
        case Some(wall) => Ok(InNewYork(cal, DateTime(wall, Naive)))
        case None => Err(ValueError)
  }

  /** `format_timestamp`, rebinding `dt`, `s` and `date_part` step by step. */
  method FormatTimestamp(cal: Calendar, timestamp: string) returns (r: Result<DateTime, PyError>)
    ensures r == NormalizedTimestamp(cal, timestamp)
  {
    var dt := cal.fromIsoFormat(timestamp);
    if dt.None? {
      var s := ReplaceZ(Strip(timestamp));
      var datePart, timePart := SplitDateTime(s).0, SplitDateTime(s).1;
      datePart := PadDate(datePart);
      s := if timePart != "" then datePart + "T" + timePart else datePart;
      s := FixOffset(s);
      dt := cal.fromIsoFormat(s);
      if dt.None? {
        var wall := cal.strptimeYmd(datePart);
        if wall.None? {
          return Err(ValueError);
        }
        dt := Some(DateTime(wall.value, Naive));
      }
    }
    r := Ok(InNewYork(cal, dt.value));
  }
}
