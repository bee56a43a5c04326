/** API versions: parsing, printing, ordering and negotiation
    (`backend/app/core/versioning.py`). */
module Versioning {
  import opened Text
  import opened Decimal

  /** The longest numeral that the interpreter's `int` and `str` convert. */
  const MAX_DIGITS := 4300

  datatype Result<+T> = Ok(value: T) | ValueError

  datatype APIVersion = APIVersion(major: nat, minor: nat, patch: nat) {
    function Print(): string {
      Str(major) + "." + Str(minor) + "." + Str(patch)
    }

    /** What `str` demands: it raises on longer numerals. */
    predicate Printable() {
      |Str(major)| <= MAX_DIGITS && |Str(minor)| <= MAX_DIGITS && |Str(patch)| <= MAX_DIGITS
    }

    function Tuple(): seq<int> {
      [major, minor, patch]
    }

    predicate Lt(other: APIVersion) {
      TupleLt(Tuple(), other.Tuple())
    }

    predicate Le(other: APIVersion) {
      TupleLe(Tuple(), other.Tuple())
    }

    predicate Gt(other: APIVersion) {
      TupleLt(other.Tuple(), Tuple())
    }

    predicate Ge(other: APIVersion) {
      TupleLe(other.Tuple(), Tuple())
    }
  }

  // ----- parsing -----

  predicate Numeral(s: string) {
    s != [] && AllDigits(s)
  }

  /** How many digits `s` starts with: what a greedy `\d+` takes. */
  function DigitRun(s: string): (n: nat)
    ensures n <= |s|
  {
    if s != [] && IsDigit(s[0]) then 1 + DigitRun(s[1..]) else 0
  }

  lemma {:induction false} DigitRunTakesDigits(s: string)
    ensures AllDigits(s[..DigitRun(s)])
  {
    if s != [] && IsDigit(s[0]) {
      DigitRunTakesDigits(s[1..]);
      assert s[..DigitRun(s)] == [s[0]] + s[1..][..DigitRun(s[1..])];
    }
  }

  /** What `$` accepts: the end, or a last newline. */
  predicate AtEnd(s: string) {
    s == [] || s == ['\n']
  }

  /** One numeral, then `n` more, each after a dot, up to the end. */
  predicate Dotted(s: string, n: nat) {
    var d := DigitRun(s);
    d > 0 && if n == 0 then AtEnd(s[d..]) else d < |s| && s[d] == '.' && Dotted(s[d + 1..], n - 1)
  }

  /** The version pattern: two or three numerals. */
  predicate Matches(s: string) {
    Dotted(s, 2) || Dotted(s, 1)
  }

  /** The parts between the dots. */
  function Split(s: string): (parts: seq<string>)
    ensures |parts| > 0
  {
    if s == [] then [[]]
    else if s[0] == '.' then [[]] + Split(s[1..])
    else
      var rest := Split(s[1..]);
      [[s[0]] + rest[0]] + rest[1..]
  }

  /** What `int` makes of digits between whitespace; `None` is its `ValueError`. */
  function Int(s: string): Option<nat>
    requires Numeral(Strip(s))
  {
    if |Strip(s)| <= MAX_DIGITS then Some(Value(Strip(s))) else None
  }

  /** Two or three parts that `int` is called on. */
  ghost predicate IntParts(parts: seq<string>) {
    2 <= |parts| <= 3 && forall i :: 0 <= i < |parts| ==> Numeral(Strip(parts[i]))
  }

  function FromParts(parts: seq<string>): Option<APIVersion>
    requires IntParts(parts)
  {
    var major, minor := Int(parts[0]), Int(parts[1]);
    var patch := if |parts| > 2 then Int(parts[2]) else Some(0);
    if major.Some? && minor.Some? && patch.Some? then Some(APIVersion(major.value, minor.value, patch.value)) else None
  }

  /** `None` is the `ValueError`, from the pattern or from `int`. */
  function Parse(s: string): Option<APIVersion> {
    if !Matches(s) then None else
      PartsAreNumerals(s);
      FromParts(Split(s))
  }

  // ----- what parsing means -----

  predicate Numerals(parts: seq<string>) {
    forall i :: 0 <= i < |parts| ==> Numeral(parts[i])
  }

  function Join(parts: seq<string>): string {
    if parts == [] then [] else if |parts| == 1 then parts[0] else parts[0] + ['.'] + Join(parts[1..])
  }

  /** `s` spells `parts`: two or three numerals with dots between, perhaps before a newline. */
  predicate Spells(s: string, parts: seq<string>, tail: string) {
    2 <= |parts| <= 3 && Numerals(parts) && AtEnd(tail) && s == Join(parts) + tail
  }

  function VersionOf(parts: seq<string>): APIVersion
    requires 2 <= |parts| <= 3 && Numerals(parts)
  {
    APIVersion(Value(parts[0]), Value(parts[1]), if |parts| == 3 then Value(parts[2]) else 0)
  }

  /** No part is too long to be converted. */
  predicate Short(parts: seq<string>) {
    forall i :: 0 <= i < |parts| ==> |parts[i]| <= MAX_DIGITS
  }

  ghost predicate Denotes(s: string, v: APIVersion) {
    exists parts, tail :: Spells(s, parts, tail) && Short(parts) && VersionOf(parts) == v
  }

  lemma {:induction false} DigitRunIs(a: string, rest: string)
    requires AllDigits(a) && (rest == [] || !IsDigit(rest[0]))
    ensures DigitRun(a + rest) == |a|
  {
    if a == [] {
      assert a + rest == rest;
    } else {
      assert (a + rest)[1..] == a[1..] + rest;
      DigitRunIs(a[1..], rest);
    }
  }

  lemma JoinLonger(p: string, parts: seq<string>, tail: string)
    requires Numeral(p) && parts != [] && Numerals(parts)
    ensures Join([p] + parts) + tail == p + ['.'] + (Join(parts) + tail) && Numerals([p] + parts)
  {
    assert ([p] + parts)[1..] == parts;
  }

  lemma {:induction false} DottedIsJoined(s: string, n: nat) returns (parts: seq<string>, tail: string)
    requires Dotted(s, n)
    ensures |parts| == n + 1 && Numerals(parts) && AtEnd(tail) && s == Join(parts) + tail
  {
    var d := DigitRun(s);
    DigitRunTakesDigits(s);
    if n == 0 {
      parts, tail := [s[..d]], s[d..];
    } else {
      parts, tail := DottedIsJoined(s[d + 1..], n - 1);
      assert s == s[..d] + ['.'] + s[d + 1..];
      JoinLonger(s[..d], parts, tail);
      parts := [s[..d]] + parts;
    }
  }

  lemma DottedLast(p: string, tail: string)
    requires Numeral(p) && AtEnd(tail)
    ensures Dotted(p + tail, 0)
  {
    DigitRunIs(p, tail);
    assert (p + tail)[|p|..] == tail;
  }

  lemma DottedMore(p: string, rest: string, n: nat)
    requires Numeral(p) && Dotted(rest, n)
    ensures Dotted(p + (['.'] + rest), n + 1)
  {
    DigitRunIs(p, ['.'] + rest);
    assert (p + (['.'] + rest))[|p| + 1..] == rest;
  }

  lemma JoinMore(parts: seq<string>, tail: string)
    requires |parts| > 1
    ensures Join(parts) + tail == parts[0] + (['.'] + (Join(parts[1..]) + tail))
  {
  }

  lemma {:induction false} JoinedIsDotted(parts: seq<string>, tail: string, n: nat)
    requires |parts| == n + 1 && Numerals(parts) && AtEnd(tail)
    ensures Dotted(Join(parts) + tail, n)
  {
    if n == 0 {
      DottedLast(parts[0], tail);
    } else {
      JoinedIsDotted(parts[1..], tail, n - 1);
      JoinMore(parts, tail);
      DottedMore(parts[0], Join(parts[1..]) + tail, n - 1);
    }
  }

  /** Each of `ss` is the part at its place between whitespace. */
  predicate StripTo(ss: seq<string>, parts: seq<string>) {
    |ss| == |parts| && forall i :: 0 <= i < |parts| ==> Strip(ss[i]) == parts[i]
  }

  lemma {:induction false} JoinedSplits(parts: seq<string>, tail: string)
    requires parts != [] && Numerals(parts) && AtEnd(tail)
    ensures StripTo(Split(Join(parts) + tail), parts)
  {
    var p := parts[0];
    if |parts| == 1 {
      SplitFirst(p + tail, []);
      assert p + tail + [] == p + tail;
      IntOfLast(p, tail);
    } else {
      var rest := Join(parts[1..]) + tail;
      JoinedSplits(parts[1..], tail);
      JoinMore(parts, tail);
      SplitFirst(p, ['.'] + rest);
      assert (['.'] + rest)[1..] == rest;
      StripTrimmed(p);
      StripMore(p, Split(rest), parts);
    }
  }

  lemma StripMore(p: string, ss: seq<string>, parts: seq<string>)
    requires parts != [] && Strip(p) == parts[0] && StripTo(ss, parts[1..])
    ensures StripTo([p] + ss, parts)
  {
  }

  lemma {:induction false} SplitFirst(a: string, rest: string)
    requires '.' !in a && (rest == [] || rest[0] == '.')
    ensures Split(a + rest) == [a] + if rest == [] then [] else Split(rest[1..])
  {
    if a == [] {
      assert a + rest == rest;
    } else {
      assert (a + rest)[1..] == a[1..] + rest;
      SplitFirst(a[1..], rest);
      assert [a[0]] + a[1..] == a;
    }
  }

  lemma IntOfLast(p: string, tail: string)
    requires Numeral(p) && AtEnd(tail)
    ensures Strip(p + tail) == p
  {
    StripUnique([], p, tail);
    assert [] + p + tail == p + tail;
  }

  lemma SpelledParts(s: string, parts: seq<string>, tail: string)
    requires Spells(s, parts, tail)
    ensures Matches(s) && StripTo(Split(s), parts)
  {
    JoinedIsDotted(parts, tail, |parts| - 1);
    JoinedSplits(parts, tail);
  }

  lemma MatchIsSpelled(s: string) returns (parts: seq<string>, tail: string)
    requires Matches(s)
    ensures Spells(s, parts, tail)
  {
    parts, tail := DottedIsJoined(s, if Dotted(s, 2) then 2 else 1);
  }

  /** Past the pattern every part is a numeral: only its length can make `int` raise. */
  lemma PartsAreNumerals(s: string)
    requires Matches(s)
    ensures IntParts(Split(s))
  {
    var parts, tail := MatchIsSpelled(s);
    SpelledParts(s, parts, tail);
  }

  /** Parsing accepts exactly two or three numerals joined by dots, none longer than `int`
      converts, leading zeros and one trailing newline included, and returns the numbers they
      stand for. */
  lemma ParseIsExact(s: string, v: APIVersion)
    ensures Parse(s) == Some(v) <==> Denotes(s, v)
  {
    if Parse(s) == Some(v) {
      var parts, tail := MatchIsSpelled(s);
      ParseSpelled(s, parts, tail);
    }
    if Denotes(s, v) {
      var parts, tail :| Spells(s, parts, tail) && Short(parts) && VersionOf(parts) == v;
      ParseSpelled(s, parts, tail);
    }
  }

  lemma ParseSpelled(s: string, parts: seq<string>, tail: string)
    requires Spells(s, parts, tail)
    ensures Parse(s) == if Short(parts) then Some(VersionOf(parts)) else None
  {
    SpelledParts(s, parts, tail);
    PartsGive(Split(s), parts);
  }

  lemma PartsGive(ss: seq<string>, parts: seq<string>)
    requires StripTo(ss, parts) && Numerals(parts) && 2 <= |parts| <= 3
    ensures IntParts(ss) && FromParts(ss) == if Short(parts) then Some(VersionOf(parts)) else None
  {
    assert forall i :: 0 <= i < |parts| ==> Int(ss[i]).Some? == (|parts[i]| <= MAX_DIGITS);
  }

  /** Reading back what was printed gives the version, for every version that `str` prints. */
  lemma ParsePrinted(v: APIVersion)
    ensures Parse(v.Print()) == if v.Printable() then Some(v) else None
  {
    StrRoundTrip(v.major);
    StrRoundTrip(v.minor);
    StrRoundTrip(v.patch);
    ParseThree(Str(v.major), Str(v.minor), Str(v.patch));
  }

  /** What was read can be printed. */
  lemma ParsedIsPrintable(s: string)
    ensures Parse(s).Some? ==> Parse(s).value.Printable()
  {
    if Parse(s).Some? {
      var parts, tail := MatchIsSpelled(s);
      ParseSpelled(s, parts, tail);
      StrIsShortest(parts[0]);
      StrIsShortest(parts[1]);
      if |parts| == 3 {
        StrIsShortest(parts[2]);
      }
    }
  }

  lemma JoinThree(a: string, b: string, c: string)
    ensures Join([a, b, c]) == a + "." + b + "." + c
    ensures Join([a, b]) == a + "." + b
  {
    assert [a, b, c][1..] == [b, c] && [b, c][1..] == [c] && [a, b][1..] == [b];
    assert "." == ['.'];
    assert Join([b, c]) == b + ['.'] + c && Join([a, b, c]) == a + ['.'] + Join([b, c]);
    assert a + ['.'] + (b + ['.'] + c) == a + ['.'] + b + ['.'] + c;
  }

  /** A version text, parsed and printed again. */
  function Canonical(s: string): Option<string> {
    match Parse(s)
    case None => None
    case Some(v) => Some(v.Print())
  }

  /** Canonical forms are fixpoints, and two texts have the same one exactly when they
      parse to the same version. */
  lemma CanonicalForm(s: string, t: string)
    ensures Canonical(s).Some? ==> Canonical(Canonical(s).value) == Canonical(s)
    ensures Canonical(s) == Canonical(t) <==> Parse(s) == Parse(t)
  {
    ParsedIsPrintable(s);
    ParsedIsPrintable(t);
    if Parse(s).Some? {
      ParsePrinted(Parse(s).value);
    }
    if Parse(t).Some? {
      ParsePrinted(Parse(t).value);
    }
  }

  /** A missing patch is patch zero, and a last newline changes nothing. */
  lemma DefaultPatch(a: string, b: string)
    requires Numeral(a) && Numeral(b)
    ensures Parse(a + "." + b).Some? <==> |a| <= MAX_DIGITS && |b| <= MAX_DIGITS
    ensures Parse(a + "." + b) == Parse(a + "." + b + "." + "0") == Parse(a + "." + b + "\n")
  {
    ParseTwo(a, b, []);
    assert a + "." + b + [] == a + "." + b;
    ParseTwo(a, b, "\n");
    ParseThree(a, b, "0");
  }

  lemma ParseTwo(a: string, b: string, tail: string)
    requires Numeral(a) && Numeral(b) && AtEnd(tail)
    ensures Parse(a + "." + b + tail)
            == if |a| <= MAX_DIGITS && |b| <= MAX_DIGITS then Some(APIVersion(Value(a), Value(b), 0)) else None
  {
    JoinThree(a, b, []);
    var parts := [a, b];
    ParseSpelled(a + "." + b + tail, parts, tail);
    assert Short(parts) <==> |parts[0]| <= MAX_DIGITS && |parts[1]| <= MAX_DIGITS;
  }

  lemma ParseThree(a: string, b: string, c: string)
    requires Numeral(a) && Numeral(b) && Numeral(c)
    ensures Parse(a + "." + b + "." + c)
            == if |a| <= MAX_DIGITS && |b| <= MAX_DIGITS && |c| <= MAX_DIGITS
               then Some(APIVersion(Value(a), Value(b), Value(c))) else None
  {
    JoinThree(a, b, c);
    var parts := [a, b, c];
    ParseSpelled(a + "." + b + "." + c, parts, []);
    assert Short(parts) <==> |parts[0]| <= MAX_DIGITS && |parts[1]| <= MAX_DIGITS && |parts[2]| <= MAX_DIGITS;
  }

  // ----- order -----

  /** Tuple comparison: the first difference decides. */
  predicate TupleLt(s: seq<int>, t: seq<int>) {
    if t == [] then false
    else if s == [] then true
    else if s[0] != t[0] then s[0] < t[0]
    else TupleLt(s[1..], t[1..])
  }

  predicate TupleLe(s: seq<int>, t: seq<int>) {
    if s == [] then true
    else if t == [] then false
    else if s[0] != t[0] then s[0] < t[0]
    else TupleLe(s[1..], t[1..])
  }

  lemma {:induction false} TupleTotal(s: seq<int>, t: seq<int>)
    ensures TupleLt(s, t) ==> s != t && !TupleLt(t, s)
    ensures s != t ==> TupleLt(s, t) || TupleLt(t, s)
    ensures TupleLe(s, t) <==> TupleLt(s, t) || s == t
  {
    if s != [] && t != [] {
      TupleTotal(s[1..], t[1..]);
      assert s == [s[0]] + s[1..] && t == [t[0]] + t[1..];
    }
  }

  lemma {:induction false} TupleTransitive(s: seq<int>, t: seq<int>, u: seq<int>)
    requires TupleLt(s, t) && TupleLt(t, u)
    ensures TupleLt(s, u)
  {
    if s != [] && s[0] == t[0] == u[0] {
      TupleTransitive(s[1..], t[1..], u[1..]);
    }
  }

  lemma LtOfThree(a: int, b: int, c: int, x: int, y: int, z: int)
    ensures TupleLt([a, b, c], [x, y, z]) <==> a < x || (a == x && (b < y || (b == y && c < z)))
  {
    assert [a, b, c][1..] == [b, c] && [x, y, z][1..] == [y, z];
    assert [b, c][1..] == [c] && [y, z][1..] == [z];
    assert TupleLt([c], [z]) <==> c < z;
  }

  /** The four comparisons are one strict total order and its reflexive and inverse forms:
      major first, then minor, then patch. */
  lemma VersionsAreOrdered(a: APIVersion, b: APIVersion, c: APIVersion)
    ensures a.Lt(b) <==> a.major < b.major || (a.major == b.major && (a.minor < b.minor || (a.minor == b.minor && a.patch < b.patch)))
    ensures !(a.Lt(b) && b.Lt(a)) && (a != b <==> a.Lt(b) || b.Lt(a))
    ensures a.Lt(b) && b.Lt(c) ==> a.Lt(c)
    ensures (a.Le(b) <==> a.Lt(b) || a == b) && (a.Gt(b) <==> b.Lt(a)) && (a.Ge(b) <==> b.Le(a))
  {
    TupleTotal(a.Tuple(), b.Tuple());
    LtOfThree(a.major, a.minor, a.patch, b.major, b.minor, b.patch);
    if a.Lt(b) && b.Lt(c) {
      TupleTransitive(a.Tuple(), b.Tuple(), c.Tuple());
    }
    assert a.Tuple() == b.Tuple() ==> a.Tuple()[0] == b.Tuple()[0] && a.Tuple()[1] == b.Tuple()[1] && a.Tuple()[2] == b.Tuple()[2];
  }

  // ----- negotiation -----

  datatype Request = Request(accept: string, custom: string, path: string)

  datatype VersionInfo = VersionInfo(current: APIVersion, supported: seq<APIVersion>)

  const FIRST := APIVersion(1, 0, 0)

  const MARKER := "version="

  /** How many digits an optional `\.\d+` takes at index `f`, zero if it is skipped. */
  function DotRun(s: string, f: nat): (g: nat)
    requires f <= |s|
    ensures g > 0 ==> f + 1 + g <= |s| && s[f] == '.'
  {
    if f < |s| && s[f] == '.' then DigitRun(s[f + 1..]) else 0
  }

  /** Where that leaves off. */
  function DotEnd(s: string, f: nat): (end: nat)
    requires f <= |s|
    ensures end <= |s|
  {
    if DotRun(s, f) > 0 then f + 1 + DotRun(s, f) else f
  }

  lemma DotRunTakesDigits(s: string, f: nat)
    requires f <= |s|
    ensures DotRun(s, f) > 0 ==> DotAt(s, f, DotRun(s, f))
  {
    if DotRun(s, f) > 0 {
      DigitRunTakesDigits(s[f + 1..]);
    }
  }

  /** How much `\d+\.\d+(?:\.\d+)?` takes of the start of `s`. */
  function VersionPrefix(s: string): (length: Option<nat>)
    ensures length.Some? ==> length.value <= |s|
  {
    var d := DigitRun(s);
    var e := DotRun(s, d);
    if d == 0 || e == 0 then None else Some(DotEnd(s, d + 1 + e))
  }

  /** The leftmost `version=(…)` of the Accept header. */
  function SearchAccept(s: string): Option<string> {
    if MARKER <= s && VersionPrefix(s[|MARKER|..]).Some? then
      Some(s[|MARKER|..][..VersionPrefix(s[|MARKER|..]).value])
    else if s == [] then None
    else SearchAccept(s[1..])
  }

  /** `/v(\d+)(?:\.(\d+))?`, leftmost; here nobody catches the `ValueError` of `int`. */
  function FromPath(path: string): Result<Option<APIVersion>> {
    if |path| < 3 then Ok(None)
    else if MarkAt(path, 0) then
      var d := DigitRun(path[2..]);
      var rest := path[2..][d..];
      var e := DotRun(rest, 0);
      DigitRunTakesDigits(path[2..]);
      DotRunTakesDigits(rest, 0);
      if d > MAX_DIGITS || e > MAX_DIGITS then ValueError
      else Ok(Some(APIVersion(Value(path[2..][..d]), if e > 0 then Value(rest[1..][..e]) else 0, 0)))
    else FromPath(path[1..])
  }

  /** The version of the Accept header, if it holds one that parses. */
  function Accepted(accept: string): Option<APIVersion> {
    match SearchAccept(accept)
    case Some(g) => Parse(g)
    case None => None
  }

  function GetApiVersion(r: Request): Result<Option<APIVersion>> {
    if Accepted(r.accept).Some? then Ok(Accepted(r.accept)) else
      var custom := if r.custom != [] then Parse(r.custom) else None;
      if custom.Some? then Ok(custom) else FromPath(r.path)
  }

  /** Some supported version is the one asked for. */
  predicate IsSupported(supported: seq<APIVersion>, v: APIVersion) {
    supported != [] && (v == supported[0] || IsSupported(supported[1..], v))
  }

  function Negotiate(info: VersionInfo, r: Request): Result<APIVersion> {
    match GetApiVersion(r)
    case ValueError => ValueError
    case Ok(None) => Ok(FIRST)
    case Ok(Some(v)) => Ok(if IsSupported(info.supported, v) then v else info.current)
  }

  lemma {:induction false} SupportedIsMember(supported: seq<APIVersion>, v: APIVersion)
    ensures IsSupported(supported, v) <==> v in supported
  {
    if supported != [] {
      SupportedIsMember(supported[1..], v);
      assert supported == [supported[0]] + supported[1..];
    }
  }

  lemma PrefixMatches(s: string)
    ensures VersionPrefix(s).Some? ==> MatchesTo(s, VersionPrefix(s).value)
  {
    var d := DigitRun(s);
    var e := DotRun(s, d);
    if d > 0 && e > 0 {
      DigitRunTakesDigits(s);
      DotRunTakesDigits(s, d);
      GroupMatches(s, d, e, d + 1 + e);
    }
  }

  lemma GroupMatches(s: string, d: nat, e: nat, f: nat)
    requires DotAt(s, d, e) && f == d + 1 + e && Numeral(s[..d])
    ensures MatchesTo(s, DotEnd(s, f))
  {
    if DotRun(s, f) > 0 {
      DotRunTakesDigits(s, f);
      ThreeMatch(s, d, e, f, DotRun(s, f));
    } else {
      TwoMatch(s, d, e);
    }
  }

  predicate MatchesTo(s: string, length: nat) {
    length <= |s| && Matches(s[..length])
  }

  predicate DotAt(s: string, d: nat, e: nat) {
    d + 1 + e <= |s| && s[d] == '.' && Numeral(s[d + 1..][..e])
  }

  lemma TwoMatch(s: string, d: nat, e: nat)
    requires DotAt(s, d, e) && Numeral(s[..d])
    ensures MatchesTo(s, d + 1 + e)
  {
    PrefixOf(s, d, e);
    JoinedMatches(s[..d], s[d + 1..][..e], "0");
  }

  lemma ThreeMatch(s: string, d: nat, e: nat, f: nat, g: nat)
    requires DotAt(s, d, e) && f == d + 1 + e && DotAt(s, f, g) && Numeral(s[..d])
    ensures MatchesTo(s, f + 1 + g)
  {
    PrefixOf(s, d, e);
    PrefixOf(s, f, g);
    JoinedMatches(s[..d], s[d + 1..][..e], s[f + 1..][..g]);
  }

  lemma PrefixOf(s: string, d: nat, e: nat)
    requires d < |s| && s[d] == '.' && d + 1 + e <= |s|
    ensures s[..d + 1 + e] == s[..d] + "." + s[d + 1..][..e]
  {
  }

  lemma JoinedMatches(a: string, b: string, c: string)
    requires Numeral(a) && Numeral(b) && Numeral(c)
    ensures Matches(a + "." + b) && Matches(a + "." + b + "." + c)
  {
    JoinThree(a, b, c);
    SpelledParts(a + "." + b, [a, b], []);
    SpelledParts(a + "." + b + "." + c, [a, b, c], []);
  }

  /** What the Accept header's pattern captures matches the version pattern, so parsing fails
      exactly when one of its numerals is too long for `int`. */
  lemma AcceptParses(accept: string)
    ensures SearchAccept(accept).Some? ==>
              var g := SearchAccept(accept).value;
              Matches(g) && (Accepted(accept).None? <==> exists part :: part in Split(g) && |Strip(part)| > MAX_DIGITS)
  {
    AcceptMatches(accept);
    if SearchAccept(accept).Some? {
      var g := SearchAccept(accept).value;
      PartsAreNumerals(g);
      PartsFail(Split(g));
    }
  }

  lemma PartsFail(parts: seq<string>)
    requires IntParts(parts)
    ensures FromParts(parts).None? <==> exists part :: part in parts && |Strip(part)| > MAX_DIGITS
  {
    if FromParts(parts).None? {
      var i := if Int(parts[0]).None? then 0 else if Int(parts[1]).None? then 1 else 2;
      assert parts[i] in parts;
    }
  }

  lemma {:induction false} AcceptMatches(accept: string)
    ensures SearchAccept(accept).Some? ==> Matches(SearchAccept(accept).value)
  {
    if MARKER <= accept && VersionPrefix(accept[|MARKER|..]).Some? {
      PrefixMatches(accept[|MARKER|..]);
    } else if accept != [] {
      AcceptMatches(accept[1..]);
    }
  }

  lemma AcceptAt(s: string, pre: string, v: string)
    requires s == pre + ("version=" + v) && VersionPrefix(v).Some?
    requires forall i: nat :: i < |pre| ==> !("version=" <= s[i..])
    ensures SearchAccept(s) == Some(v[..VersionPrefix(v).value])
  {
    SkipsToMark(s, 0, |pre|);
    assert s[0..] == s && s[|pre|..] == MARKER + v && (MARKER + v)[|MARKER|..] == v;
  }

  /** What follows the first `version=` of an Accept header is read: two numerals with a dot
      between, unless a third follows. */
  lemma AcceptIsRead(s: string, pre: string, a: string, b: string, rest: string)
    requires Numeral(a) && Numeral(b) && (rest == [] || !IsDigit(rest[0]))
    requires |rest| < 2 || rest[0] != '.' || !IsDigit(rest[1])
    requires s == pre + ("version=" + (a + (['.'] + (b + rest))))
    requires forall i: nat :: i < |pre| ==> !("version=" <= s[i..])
    ensures SearchAccept(s) == Some(a + "." + b)
  {
    TwoPrefix(a, b, rest);
    AcceptAt(s, pre, a + (['.'] + (b + rest)));
  }

  lemma TwoPrefix(a: string, b: string, rest: string)
    requires Numeral(a) && Numeral(b) && (rest == [] || !IsDigit(rest[0]))
    requires |rest| < 2 || rest[0] != '.' || !IsDigit(rest[1])
    ensures var v := a + (['.'] + (b + rest));
            VersionPrefix(v) == Some(|a| + 1 + |b|) && v[..|a| + 1 + |b|] == a + "." + b
  {
    PrefixIs(a, b, rest);
    Dotting(a, b, rest);
    NoDotAfter(a + "." + b + rest, |a| + 1 + |b|, rest);
  }

  lemma Dotting(a: string, b: string, more: string)
    ensures a + (['.'] + (b + more)) == a + "." + b + more
    ensures |a + "." + b| == |a| + 1 + |b|
    ensures (a + "." + b + more)[..|a| + 1 + |b|] == a + "." + b
    ensures (a + "." + b + more)[|a| + 1 + |b|..] == more
  {
    assert "." == ['.'];
  }

  /** And three where they are there. */
  lemma AcceptThreeIsRead(s: string, pre: string, a: string, b: string, c: string, rest: string)
    requires Numeral(a) && Numeral(b) && Numeral(c) && (rest == [] || !IsDigit(rest[0]))
    requires s == pre + ("version=" + (a + (['.'] + (b + (['.'] + (c + rest))))))
    requires forall i: nat :: i < |pre| ==> !("version=" <= s[i..])
    ensures SearchAccept(s) == Some(a + "." + b + "." + c)
  {
    ThreePrefix(a, b, c, rest);
    AcceptAt(s, pre, a + (['.'] + (b + (['.'] + (c + rest)))));
  }

  lemma ThreePrefix(a: string, b: string, c: string, rest: string)
    requires Numeral(a) && Numeral(b) && Numeral(c) && (rest == [] || !IsDigit(rest[0]))
    ensures var v := a + (['.'] + (b + (['.'] + (c + rest))));
            var f := |a| + 1 + |b| + 1 + |c|;
            VersionPrefix(v) == Some(f) && v[..f] == a + "." + b + "." + c
  {
    var more := ['.'] + (c + rest);
    PrefixIs(a, b, more);
    Dotting(a, b, more);
    DotAfter(a + "." + b + more, |a| + 1 + |b|, c, rest);
    Dotting(a + "." + b, c, rest);
  }

  lemma NoDotAfter(v: string, f: nat, rest: string)
    requires f <= |v| && v[f..] == rest && (|rest| < 2 || rest[0] != '.' || !IsDigit(rest[1]))
    ensures DotEnd(v, f) == f
  {
    if f < |v| && v[f] == '.' {
      assert rest[0] == '.' && v[f + 1..] == rest[1..];
    }
  }

  lemma {:induction false} SkipsToMark(s: string, i: nat, j: nat)
    requires i <= j <= |s| && forall k: nat :: i <= k < j ==> !(MARKER <= s[k..])
    ensures SearchAccept(s[i..]) == SearchAccept(s[j..])
    decreases j - i
  {
    if i < j {
      assert s[i..][1..] == s[i + 1..];
      SkipsToMark(s, i + 1, j);
    }
  }

  lemma PrefixIs(a: string, b: string, more: string)
    requires Numeral(a) && Numeral(b) && (more == [] || !IsDigit(more[0]))
    ensures var v, f := a + (['.'] + (b + more)), |a| + 1 + |b|;
            VersionPrefix(v) == Some(DotEnd(v, f))
  {
    var tail := ['.'] + (b + more);
    DigitRunIs(a, tail);
    assert (a + tail)[|a| + 1..] == b + more;
    DigitRunIs(b, more);
  }

  lemma DotAfter(v: string, f: nat, c: string, rest: string)
    requires f <= |v| && v[f..] == ['.'] + (c + rest) && Numeral(c) && (rest == [] || !IsDigit(rest[0]))
    ensures DotEnd(v, f) == f + 1 + |c|
  {
    assert v[f + 1..] == v[f..][1..] == c + rest;
    assert v[f] == v[f..][0];
    DigitRunIs(c, rest);
  }

  /** Without `version=` there is nothing to read. */
  lemma AcceptIsSilent(s: string)
    requires forall i: nat :: i <= |s| ==> !("version=" <= s[i..])
    ensures SearchAccept(s) == None
  {
    SkipsToMark(s, 0, |s|);
    assert s[0..] == s && s[|s|..] == [];
  }

  /** The Accept header wins where it holds a version that `int` converts, then a parsable
      custom header, then the path; only the path can raise. */
  lemma Precedence(r: Request)
    ensures SearchAccept(r.accept).Some? && (forall part :: part in Split(SearchAccept(r.accept).value) ==> |Strip(part)| <= MAX_DIGITS) ==>
              Accepted(r.accept).Some? && GetApiVersion(r) == Ok(Accepted(r.accept))
    ensures Accepted(r.accept).None? && Parse(r.custom).Some? ==> GetApiVersion(r) == Ok(Parse(r.custom))
    ensures Accepted(r.accept).None? && Parse(r.custom).None? ==> GetApiVersion(r) == FromPath(r.path)
    ensures GetApiVersion(r).ValueError? <==> Accepted(r.accept).None? && Parse(r.custom).None? && FromPath(r.path).ValueError?
  {
    AcceptParses(r.accept);
  }

  /** The client gets the version it asked for exactly when that is supported or current,
      the current one otherwise, and 1.0.0 when it asked for none. */
  lemma NegotiationIsExact(info: VersionInfo, r: Request, v: APIVersion)
    ensures GetApiVersion(r) == Ok(Some(v)) ==>
              && (Negotiate(info, r) == Ok(v) <==> v in info.supported + [info.current])
              && (v !in info.supported ==> Negotiate(info, r) == Ok(info.current))
    ensures GetApiVersion(r) == Ok(None) ==> Negotiate(info, r) == Ok(APIVersion(1, 0, 0))
    ensures Negotiate(info, r).ValueError? <==> GetApiVersion(r).ValueError?
  {
    SupportedIsMember(info.supported, v);
  }

  /** A version printed into the custom header and sent back is negotiated unchanged if it
      is supported. */
  lemma HeaderRoundTrip(info: VersionInfo, r: Request, v: APIVersion)
    requires Accepted(r.accept).None? && v.Printable() && r.custom == v.Print() && v in info.supported
    ensures Negotiate(info, r) == Ok(v)
  {
    ParsePrinted(v);
    Precedence(r);
    SupportedIsMember(info.supported, v);
  }

  /** A place where the path pattern finds a version: `/v` before a digit. */
  predicate MarkAt(path: string, i: nat) {
    i + 2 < |path| && path[i] == '/' && path[i + 1] == 'v' && IsDigit(path[i + 2])
  }

  /** The pattern is sought from the left: what comes before the first mark is skipped. */
  lemma {:induction false} PrefixIsSkipped(prefix: string, rest: string)
    requires forall i: nat :: i < |prefix| ==> !MarkAt(prefix, i)
    ensures FromPath(prefix + (['/', 'v'] + rest)) == FromPath(['/', 'v'] + rest)
  {
    var path := prefix + (['/', 'v'] + rest);
    if prefix == [] {
      assert path == ['/', 'v'] + rest;
    } else {
      NoMarkFirst(prefix, rest);
      assert path[1..] == prefix[1..] + (['/', 'v'] + rest);
      forall i: nat | i < |prefix| - 1 ensures !MarkAt(prefix[1..], i) {
        var j := i + 1;
        assert !MarkAt(prefix, j);
      }
      PrefixIsSkipped(prefix[1..], rest);
    }
  }

  /** The first `/v` and numeral `a` of a path are read, with minor zero unless a dot and a
      digit follow; an earlier `/v` before anything but a digit does not matter. */
  lemma PathVersionIsRead(prefix: string, a: string, rest: string)
    requires forall i: nat :: i < |prefix| ==> !MarkAt(prefix, i)
    requires Numeral(a) && (rest == [] || !IsDigit(rest[0]))
    requires |rest| < 2 || rest[0] != '.' || !IsDigit(rest[1])
    ensures FromPath(prefix + (['/', 'v'] + (a + rest)))
            == if |a| <= MAX_DIGITS then Ok(Some(APIVersion(Value(a), 0, 0))) else ValueError
  {
    PrefixIsSkipped(prefix, a + rest);
    MarkDigits(a, rest);
  }

  lemma MarkDigits(a: string, rest: string)
    requires Numeral(a) && (rest == [] || !IsDigit(rest[0]))
    ensures var path := ['/', 'v'] + (a + rest);
            && MarkAt(path, 0) && DigitRun(path[2..]) == |a|
            && path[2..][..|a|] == a && path[2..][|a|..] == rest
  {
    var path := ['/', 'v'] + (a + rest);
    assert path[2..] == a + rest;
    DigitRunIs(a, rest);
  }

  lemma DotDigits(b: string, rest: string)
    requires Numeral(b) && (rest == [] || !IsDigit(rest[0]))
    ensures var dotted := ['.'] + (b + rest);
            DotRun(dotted, 0) == |b| && dotted[1..][..|b|] == b
  {
    var dotted := ['.'] + (b + rest);
    assert dotted[1..] == b + rest;
    DigitRunIs(b, rest);
  }

  /** So is the numeral `b` of a minor version. */
  lemma PathMinorIsRead(prefix: string, a: string, b: string, rest: string)
    requires forall i: nat :: i < |prefix| ==> !MarkAt(prefix, i)
    requires Numeral(a) && Numeral(b) && (rest == [] || !IsDigit(rest[0]))
    ensures FromPath(prefix + (['/', 'v'] + (a + (['.'] + (b + rest)))))
            == if |a| <= MAX_DIGITS && |b| <= MAX_DIGITS then Ok(Some(APIVersion(Value(a), Value(b), 0))) else ValueError
  {
    var dotted := ['.'] + (b + rest);
    PrefixIsSkipped(prefix, a + dotted);
    MarkDigits(a, dotted);
    DotDigits(b, rest);
  }

  /** The mark after a prefix makes none at the prefix's start. */
  lemma NoMarkFirst(prefix: string, rest: string)
    requires prefix != [] && !MarkAt(prefix, 0)
    ensures !MarkAt(prefix + (['/', 'v'] + rest), 0)
  {
    var path := prefix + (['/', 'v'] + rest);
    assert path[..|prefix|] == prefix && path[|prefix|] == '/' && path[|prefix| + 1] == 'v';
  }

  /** A path without a mark has no version; one with a mark has, or raises. */
  lemma {:induction false} PathVersionExists(path: string)
    ensures FromPath(path) != Ok(None) <==> exists i: nat :: MarkAt(path, i)
  {
    if MarkAt(path, 0) {
    } else if |path| >= 3 {
      PathVersionExists(path[1..]);
      if i: nat :| MarkAt(path[1..], i) {
        var j := i + 1;
        assert MarkAt(path, j);
      }
      if j: nat :| MarkAt(path, j) {
        var i := j - 1;
        assert MarkAt(path[1..], i);
      }
    }
  }
}
