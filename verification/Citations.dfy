/** Citation extraction and renumbering of
    `backend/app/services/citation_assembly_service.py`, on texts that are split into plain
    text and the three kinds of citation marker. */
module Citations {
  import opened Finite
  import opened Text
  import opened Decimal

  datatype Token =
    | Plain(text: string)
    | Parens(raw: string)          // (Smith, 2020)
    | Brackets(raw: string)        // [Smith, 2020]
    | Numeric(items: seq<string>)  // [1, 2]

  type Tokens = seq<Token>

  /** What the three patterns guarantee about the text they match. */
  ghost predicate WellFormed(ts: Tokens) {
    forall i :: 0 <= i < |ts| ==>
      match ts[i]
      case Plain(_) => true
      case Parens(raw) => AuthorYear(raw)
      case Brackets(raw) => AuthorYear(raw)
      case Numeric(items) => forall j :: 0 <= j < |items| ==> items[j] != [] && AllDigits(items[j])
  }

  /** Author-year markers start with a capital letter. */
  predicate AuthorYear(raw: string) {
    raw != [] && 'A' <= raw[0] <= 'Z'
  }

  // ----- normalizing -----

  /** Length of the leading word. */
  function WordLength(s: string): (n: nat)
    ensures n <= |s|
    ensures s != [] && !IsSpace(s[0]) ==> n > 0
  {
    if s == [] || IsSpace(s[0]) then 0 else 1 + WordLength(s[1..])
  }

  lemma {:induction false} LStripShorter(s: string)
    ensures |LStrip(s)| <= |s|
    ensures LStrip(s) != [] ==> !IsSpace(LStrip(s)[0])
  {
    if s != [] {
      LStripShorter(s[1..]);
    }
  }

  /** The words that whitespace separates. */
  function Words(s: string): seq<string>
    decreases |s|
  {
    LStripShorter(s);
    var t := LStrip(s);
    if t == [] then [] else [t[..WordLength(t)]] + Words(t[WordLength(t)..])
  }

  /** The words with one blank between them. */
  function JoinWords(ws: seq<string>): string {
    if ws == [] then [] else if |ws| == 1 then ws[0] else ws[0] + " " + JoinWords(ws[1..])
  }

  function Normalize(raw: string): string {
    JoinWords(Words(Strip(raw)))
  }

  /** A normalized author-year key still starts with its capital letter. */
  lemma NormalizeKeepsInitial(raw: string)
    requires AuthorYear(raw)
    ensures Normalize(raw) != [] && Normalize(raw)[0] == raw[0]
  {
    assert LStrip(raw) == raw;
    var post := RStripSplits(raw);
    var s := Strip(raw);
    assert raw[0] == (s + post)[0];
    assert s != [] && s[0] == raw[0] && LStrip(s) == s;
    assert Words(s)[0][0] == s[0];
  }

  // ----- what normalizing means -----

  predicate IsWord(w: string) {
    w != [] && forall i :: 0 <= i < |w| ==> !IsSpace(w[i])
  }

  /** The gaps around and between words: whitespace, not empty between two words. */
  predicate Gaps(ws: seq<string>, gaps: seq<string>) {
    && |gaps| == |ws| + 1
    && (forall i :: 0 <= i < |ws| ==> IsWord(ws[i]))
    && (forall i :: 0 <= i < |gaps| ==> AllSpace(gaps[i]))
    && forall i :: 0 < i < |ws| ==> gaps[i] != []
  }

  /** Words and gaps in turn. */
  function Interleave(ws: seq<string>, gaps: seq<string>): string
    requires |gaps| == |ws| + 1
  {
    gaps[0] + if ws == [] then [] else ws[0] + Interleave(ws[1..], gaps[1..])
  }

  /** `s` consists of the words `ws` with whitespace around and between them. */
  ghost predicate HasWords(s: string, ws: seq<string>) {
    exists gaps :: Gaps(ws, gaps) && s == Interleave(ws, gaps)
  }

  lemma GapsTail(ws: seq<string>, gaps: seq<string>)
    requires Gaps(ws, gaps) && ws != []
    ensures Gaps(ws[1..], gaps[1..])
    ensures var rest := Interleave(ws[1..], gaps[1..]); rest == [] || IsSpace(rest[0])
  {
    if |ws| > 1 {
      assert gaps[1][0] == Interleave(ws[1..], gaps[1..])[0];
    }
  }

  lemma {:induction false} WordLengthIs(w: string, rest: string)
    requires (forall i :: 0 <= i < |w| ==> !IsSpace(w[i])) && (rest == [] || IsSpace(rest[0]))
    ensures WordLength(w + rest) == |w|
  {
    if w == [] {
      assert w + rest == rest;
    } else {
      assert (w + rest)[1..] == w[1..] + rest;
      WordLengthIs(w[1..], rest);
    }
  }

  lemma {:induction false} WordsAre(ws: seq<string>, gaps: seq<string>)
    requires Gaps(ws, gaps)
    ensures Words(Interleave(ws, gaps)) == ws
  {
    var s := Interleave(ws, gaps);
    if ws == [] {
      assert s == gaps[0];
      LStripBlank(s);
    } else {
      var rest := Interleave(ws[1..], gaps[1..]);
      GapsTail(ws, gaps);
      WordsAre(ws[1..], gaps[1..]);
      LStripPrefix(gaps[0], ws[0] + rest);
      WordLengthIs(ws[0], rest);
      assert (ws[0] + rest)[|ws[0]|..] == rest;
    }
  }

  lemma {:induction false} WordIsWord(s: string)
    ensures forall i :: 0 <= i < WordLength(s) ==> !IsSpace(s[i])
    ensures WordLength(s) < |s| ==> IsSpace(s[WordLength(s)])
  {
    if s != [] && !IsSpace(s[0]) {
      WordIsWord(s[1..]);
    }
  }

  /** The words of a text are its first word and those of what follows it. */
  lemma FirstWord(s: string) returns (rest: string)
    requires LStrip(s) != []
    ensures |rest| < |s| && (rest == [] || IsSpace(rest[0]))
    ensures Words(s) != [] && Words(s)[1..] == Words(rest)
    ensures IsWord(Words(s)[0]) && LStrip(s) == Words(s)[0] + rest
  {
    LStripShorter(s);
    var t := LStrip(s);
    WordIsWord(t);
    rest := t[WordLength(t)..];
    assert t == t[..WordLength(t)] + rest;
  }

  lemma {:induction false} WordsHaveGaps(s: string) returns (gaps: seq<string>)
    ensures Gaps(Words(s), gaps) && s == Interleave(Words(s), gaps)
    decreases |s|
  {
    var pre := LStripSplits(s);
    if LStrip(s) == [] {
      gaps := [pre];
    } else {
      var rest := FirstWord(s);
      var more := WordsHaveGaps(rest);
      FirstGap(rest, Words(rest), more);
      gaps := [pre] + more;
      GapsCons(pre, Words(s)[0], Words(rest), more);
      assert [Words(s)[0]] + Words(rest) == Words(s);
    }
  }

  lemma FirstGap(s: string, ws: seq<string>, gaps: seq<string>)
    requires Gaps(ws, gaps) && s == Interleave(ws, gaps) && (s == [] || IsSpace(s[0]))
    ensures ws != [] ==> gaps[0] != []
  {
    if ws != [] {
      var w := ws[0];
      assert IsWord(w);
      assert s == gaps[0] + (w + Interleave(ws[1..], gaps[1..]));
    }
  }

  lemma GapsCons(gap: string, w: string, ws: seq<string>, gaps: seq<string>)
    requires AllSpace(gap) && IsWord(w) && Gaps(ws, gaps) && (ws != [] ==> gaps[0] != [])
    ensures Gaps([w] + ws, [gap] + gaps)
    ensures Interleave([w] + ws, [gap] + gaps) == gap + (w + Interleave(ws, gaps))
  {
    assert ([w] + ws)[1..] == ws && ([gap] + gaps)[1..] == gaps;
  }

  lemma {:induction false} PadRight(ws: seq<string>, gaps: seq<string>, post: string) returns (padded: seq<string>)
    requires Gaps(ws, gaps) && AllSpace(post)
    ensures Gaps(ws, padded) && Interleave(ws, padded) == Interleave(ws, gaps) + post
    ensures |ws| > 0 ==> padded[0] == gaps[0]
  {
    if ws == [] {
      padded := [gaps[0] + post];
    } else {
      GapsTail(ws, gaps);
      var rest := PadRight(ws[1..], gaps[1..], post);
      padded := [gaps[0]] + rest;
      GapsCons(gaps[0], ws[0], ws[1..], rest);
      assert [ws[0]] + ws[1..] == ws;
    }
  }

  lemma PadLeft(ws: seq<string>, gaps: seq<string>, pre: string) returns (padded: seq<string>)
    requires Gaps(ws, gaps) && AllSpace(pre)
    ensures Gaps(ws, padded) && Interleave(ws, padded) == pre + Interleave(ws, gaps)
  {
    padded := gaps[0 := pre + gaps[0]];
    assert padded[1..] == gaps[1..];
  }

  /** Stripping does not change the words. */
  lemma WordsOfStripped(s: string)
    ensures Words(Strip(s)) == Words(s)
  {
    var pre, post := StripSplits(s);
    var ws := Words(Strip(s));
    var gaps := WordsHaveGaps(Strip(s));
    gaps := PadRight(ws, gaps, post);
    gaps := PadLeft(ws, gaps, pre);
    assert s == pre + (Strip(s) + post);
    WordsAre(ws, gaps);
  }

  /** The words with single blanks between them. */
  function SingleBlanks(ws: seq<string>): seq<string> {
    seq(|ws| + 1, i => if 0 < i < |ws| then [' '] else [])
  }

  lemma {:induction false} JoinedHasWords(ws: seq<string>)
    requires forall i :: 0 <= i < |ws| ==> IsWord(ws[i])
    ensures Gaps(ws, SingleBlanks(ws)) && JoinWords(ws) == Interleave(ws, SingleBlanks(ws))
  {
    if |ws| > 1 {
      JoinedHasWords(ws[1..]);
      var gaps, rest := SingleBlanks(ws), SingleBlanks(ws[1..]);
      assert gaps[1..] == rest[0 := [' ']];
      assert rest[0 := [' ']][1..] == rest[1..];
      assert Interleave(ws[1..], gaps[1..]) == [' '] + Interleave(ws[1..], rest);
    } else if |ws| == 1 {
      assert SingleBlanks(ws) == [[], []];
    }
  }

  /** What normalizing does, whatever way the text is spaced: of a text with the words `ws` it
      makes the one with exactly one blank between each two of them and no other whitespace. */
  lemma NormalizeIsExact(raw: string, ws: seq<string>)
    requires HasWords(raw, ws)
    ensures Gaps(ws, SingleBlanks(ws)) && Normalize(raw) == Interleave(ws, SingleBlanks(ws))
  {
    var gaps :| Gaps(ws, gaps) && raw == Interleave(ws, gaps);
    WordsAre(ws, gaps);
    WordsOfStripped(raw);
    JoinedHasWords(ws);
  }

  /** Two texts are one citation exactly when they differ in nothing but the whitespace around
      and between their words. */
  lemma SameCitation(a: string, b: string)
    ensures Normalize(a) == Normalize(b) <==> exists ws :: HasWords(a, ws) && HasWords(b, ws)
  {
    var ga := WordsHaveGaps(a);
    var gb := WordsHaveGaps(b);
    assert HasWords(a, Words(a)) && HasWords(b, Words(b));
    NormalizeIsExact(a, Words(a));
    NormalizeIsExact(b, Words(b));
    if Normalize(a) == Normalize(b) {
      WordsAre(Words(a), SingleBlanks(Words(a)));
      WordsAre(Words(b), SingleBlanks(Words(b)));
    }
    if ws :| HasWords(a, ws) && HasWords(b, ws) {
      NormalizeIsExact(a, ws);
      NormalizeIsExact(b, ws);
    }
  }

  /** The characters that are not whitespace. */
  function Dense(s: string): string {
    if s == [] then [] else (if IsSpace(s[0]) then [] else [s[0]]) + Dense(s[1..])
  }

  lemma {:induction false} DenseAppend(a: string, b: string)
    ensures Dense(a + b) == Dense(a) + Dense(b)
    ensures AllSpace(a) ==> Dense(a) == []
  {
    if a == [] {
      assert a + b == b;
    } else {
      assert (a + b)[1..] == a[1..] + b;
      DenseAppend(a[1..], b);
    }
  }

  lemma {:induction false} DenseInterleave(ws: seq<string>, gaps: seq<string>, other: seq<string>)
    requires Gaps(ws, gaps) && Gaps(ws, other)
    ensures Dense(Interleave(ws, gaps)) == Dense(Interleave(ws, other))
  {
    if ws == [] {
      DenseAppend(gaps[0], []);
      DenseAppend(other[0], []);
    } else {
      GapsTail(ws, gaps);
      GapsTail(ws, other);
      DenseInterleave(ws[1..], gaps[1..], other[1..]);
      var r, q := Interleave(ws[1..], gaps[1..]), Interleave(ws[1..], other[1..]);
      DenseAppend(gaps[0], ws[0] + r);
      DenseAppend(other[0], ws[0] + q);
      DenseAppend(ws[0], r);
      DenseAppend(ws[0], q);
    }
  }

  /** Normalizing loses and adds nothing but whitespace. */
  lemma NormalizeKeepsText(raw: string)
    ensures Dense(Normalize(raw)) == Dense(raw)
  {
    var gaps := WordsHaveGaps(raw);
    assert HasWords(raw, Words(raw));
    NormalizeIsExact(raw, Words(raw));
    DenseInterleave(Words(raw), gaps, SingleBlanks(Words(raw)));
  }

  // ----- extraction -----

  function AddNew(xs: seq<string>, x: string): seq<string> {
    if x in xs then xs else xs + [x]
  }

  /** First occurrences, in order. */
  function Dedupe(xs: seq<string>): seq<string> {
    if xs == [] then [] else AddNew(Dedupe(xs[..|xs| - 1]), xs[|xs| - 1])
  }

  /** Keys of the parenthesised or of the bracketed author-year markers. */
  function AuthorYearKeys(ts: Tokens, brackets: bool): seq<string> {
    if ts == [] then []
    else
      var t := ts[|ts| - 1];
      var keys := AuthorYearKeys(ts[..|ts| - 1], brackets);
      if (if brackets then t.Brackets? else t.Parens?) && Normalize(t.raw) != "" then keys + [Normalize(t.raw)] else keys
  }

  function NumericKeys(ts: Tokens): seq<string> {
    if ts == [] then []
    else
      var t := ts[|ts| - 1];
      NumericKeys(ts[..|ts| - 1]) + (if t.Numeric? then t.items else [])
  }

  /** Every citation of a text: parenthesised ones first, then bracketed, then numeric. */
  function AllKeys(ts: Tokens): seq<string> {
    AuthorYearKeys(ts, false) + AuthorYearKeys(ts, true) + NumericKeys(ts)
  }

  method ExtractCitations(ts: Tokens) returns (citations: seq<string>)
    ensures citations == Dedupe(AllKeys(ts))
  {
    citations := CollectAuthorYear(ts, false, [], []);
    ghost var parens := AuthorYearKeys(ts, false);
    assert [] + parens == parens;
    citations := CollectAuthorYear(ts, true, citations, parens);
    citations := CollectNumbers(ts, citations, parens + AuthorYearKeys(ts, true));
  }

  /** One of the two author-year loops, over the citations found so far. */
  method CollectAuthorYear(ts: Tokens, brackets: bool, found: seq<string>, ghost seen: seq<string>) returns (citations: seq<string>)
    requires found == Dedupe(seen)
    ensures citations == Dedupe(seen + AuthorYearKeys(ts, brackets))
  {
    citations := found;
    assert seen + AuthorYearKeys(ts[..0], brackets) == seen;
    for i := 0 to |ts|
      invariant citations == Dedupe(seen + AuthorYearKeys(ts[..i], brackets))
    {
      NextKey(seen, ts, i, brackets);
      if (if brackets then ts[i].Brackets? else ts[i].Parens?) {
        var cleaned := Normalize(ts[i].raw);
        if cleaned != "" {
          if cleaned !in citations {
            citations := citations + [cleaned];
          }
        }
      }
    }
    assert ts[..|ts|] == ts;
  }

  lemma NextKey(seen: seq<string>, ts: Tokens, i: nat, brackets: bool)
    requires i < |ts|
    ensures var before := Dedupe(seen + AuthorYearKeys(ts[..i], brackets));
            Dedupe(seen + AuthorYearKeys(ts[..i + 1], brackets)) ==
            if (if brackets then ts[i].Brackets? else ts[i].Parens?) && Normalize(ts[i].raw) != ""
            then AddNew(before, Normalize(ts[i].raw)) else before
  {
    assert ts[..i + 1][..i] == ts[..i];
    if (if brackets then ts[i].Brackets? else ts[i].Parens?) && Normalize(ts[i].raw) != "" {
      DedupeSnoc(seen, AuthorYearKeys(ts[..i], brackets), Normalize(ts[i].raw));
    }
  }

  method CollectNumbers(ts: Tokens, found: seq<string>, ghost seen: seq<string>) returns (citations: seq<string>)
    requires found == Dedupe(seen)
    ensures citations == Dedupe(seen + NumericKeys(ts))
  {
    citations := found;
    assert seen + NumericKeys(ts[..0]) == seen;
    for i := 0 to |ts|
      invariant citations == Dedupe(seen + NumericKeys(ts[..i]))
    {
      assert ts[..i + 1][..i] == ts[..i];
      if ts[i].Numeric? {
        ghost var before := NumericKeys(ts[..i]);
        citations := AddNumbers(ts[i].items, citations, seen + before);
        assert seen + before + ts[i].items == seen + (before + ts[i].items);
      } else {
        assert NumericKeys(ts[..i + 1]) == NumericKeys(ts[..i]);
      }
    }
    assert ts[..|ts|] == ts;
  }

  /** The numbers of one marker. */
  method AddNumbers(numbers: seq<string>, found: seq<string>, ghost seen: seq<string>) returns (citations: seq<string>)
    requires found == Dedupe(seen)
    ensures citations == Dedupe(seen + numbers)
  {
    citations := found;
    assert seen + numbers[..0] == seen;
    for i := 0 to |numbers|
      invariant citations == Dedupe(seen + numbers[..i])
    {
      DedupeSnoc(seen, numbers[..i], numbers[i]);
      assert numbers[..i] + [numbers[i]] == numbers[..i + 1];
      if numbers[i] !in citations {
        citations := citations + [numbers[i]];
      }
    }
    assert numbers[..|numbers|] == numbers;
  }

  lemma DedupeSnoc(seen: seq<string>, xs: seq<string>, x: string)
    ensures Dedupe(seen + (xs + [x])) == AddNew(Dedupe(seen + xs), x)
  {
    var all := seen + (xs + [x]);
    assert all[..|all| - 1] == seen + xs;
  }

  /** Extraction is duplicate-free and complete, and a citation comes before every citation
      that first occurs after it. */
  lemma {:induction false} DedupeExact(xs: seq<string>)
    ensures Distinct(Dedupe(xs)) && (forall x :: x in Dedupe(xs) <==> x in xs)
    ensures forall n :: 0 <= n <= |xs| ==> Dedupe(xs[..n]) <= Dedupe(xs)
  {
    if xs != [] {
      var p := xs[..|xs| - 1];
      DedupeExact(p);
      assert xs == p + [xs[|xs| - 1]];
      forall n | 0 <= n <= |xs| ensures Dedupe(xs[..n]) <= Dedupe(xs) {
        if n < |xs| {
          assert xs[..n] == p[..n];
        } else {
          assert xs[..n] == xs;
        }
      }
    }
  }

  lemma {:induction false} KeysGrow(ts: Tokens, n: nat, brackets: bool)
    requires n <= |ts|
    ensures AuthorYearKeys(ts[..n], brackets) <= AuthorYearKeys(ts, brackets)
    ensures NumericKeys(ts[..n]) <= NumericKeys(ts)
    decreases |ts|
  {
    if n < |ts| {
      KeysGrow(ts[..|ts| - 1], n, brackets);
      assert ts[..|ts| - 1][..n] == ts[..n];
    } else {
      assert ts[..n] == ts;
    }
  }

  lemma DedupeGrows(xs: seq<string>, ys: seq<string>)
    requires xs <= ys
    ensures Dedupe(xs) <= Dedupe(ys)
  {
    DedupeExact(ys);
    assert ys[..|xs|] == xs;
  }

  /** In which order citations are numbered: those of the parenthesised markers first, then those
      of the bracketed ones, then the numbers, and among the markers of one kind those of the
      text's beginning first. */
  lemma ExtractionOrder(ts: Tokens, n: nat)
    requires n <= |ts|
    ensures var all := Dedupe(AllKeys(ts));
            && Dedupe(AuthorYearKeys(ts[..n], false)) <= all
            && Dedupe(AuthorYearKeys(ts, false) + AuthorYearKeys(ts[..n], true)) <= all
            && Dedupe(AuthorYearKeys(ts, false) + AuthorYearKeys(ts, true) + NumericKeys(ts[..n])) <= all
  {
    KeysGrow(ts, n, false);
    KeysGrow(ts, n, true);
    DedupeGrows(AuthorYearKeys(ts[..n], false), AllKeys(ts));
    DedupeGrows(AuthorYearKeys(ts, false) + AuthorYearKeys(ts[..n], true), AllKeys(ts));
    DedupeGrows(AuthorYearKeys(ts, false) + AuthorYearKeys(ts, true) + NumericKeys(ts[..n]), AllKeys(ts));
  }

  // ----- the mapping -----

  type Mapping = map<string, int>

  /** Every citation with its position, counted from 1. */
  function MappingOf(citations: seq<string>): Mapping {
    if citations == [] then map[]
    else MappingOf(citations[..|citations| - 1])[citations[|citations| - 1] := |citations|]
  }

  /** The mapping is a bijection from the citations onto 1..n that gives each its position. */
  lemma {:induction false} MappingIsBijection(citations: seq<string>)
    requires Distinct(citations)
    ensures forall k :: k in MappingOf(citations) <==> k in citations
    ensures forall i :: 0 <= i < |citations| ==> MappingOf(citations)[citations[i]] == i + 1
  {
    if citations != [] {
      var p := citations[..|citations| - 1];
      MappingIsBijection(p);
      assert citations == p + [citations[|citations| - 1]];
    }
  }

  // ----- replacing -----

  function ReplaceAuthorYear(m: Mapping, t: Token): Token
    requires t.Parens? || t.Brackets?
    requires Positive(m)
  {
    var key := Normalize(t.raw);
    if key in m then Numeric([Str(m[key])]) else t
  }

  function ReplaceNumber(m: Mapping, x: string): string
    requires Positive(m)
  {
    if x in m then Str(m[x]) else x
  }

  function ReplaceNumbers(m: Mapping, items: seq<string>): (r: seq<string>)
    requires Positive(m)
    ensures |r| == |items| && forall i :: 0 <= i < |r| ==> r[i] == ReplaceNumber(m, items[i])
  {
    seq(|items|, i requires 0 <= i < |items| && Positive(m) => ReplaceNumber(m, items[i]))
  }

  predicate Positive(m: Mapping) {
    forall k :: k in m ==> m[k] > 0
  }

  function ParensPass(m: Mapping, ts: Tokens): Tokens
    requires Positive(m)
  {
    seq(|ts|, i requires 0 <= i < |ts| && Positive(m) => if ts[i].Parens? then ReplaceAuthorYear(m, ts[i]) else ts[i])
  }

  function BracketsPass(m: Mapping, ts: Tokens): Tokens
    requires Positive(m)
  {
    seq(|ts|, i requires 0 <= i < |ts| && Positive(m) => if ts[i].Brackets? then ReplaceAuthorYear(m, ts[i]) else ts[i])
  }

  function NumericPass(m: Mapping, ts: Tokens): Tokens
    requires Positive(m)
  {
    seq(|ts|, i requires 0 <= i < |ts| && Positive(m) =>
      if ts[i].Numeric? then Numeric(ReplaceNumbers(m, ts[i].items)) else ts[i])
  }

  /** The three passes, one over the result of the other. */
  function ReplaceCitations(m: Mapping, ts: Tokens): Tokens
    requires Positive(m)
  {
    NumericPass(m, BracketsPass(m, ParensPass(m, ts)))
  }

  /** What renumbering is meant to do: every marker is replaced once. */
  function Simultaneous(m: Mapping, ts: Tokens): Tokens
    requires Positive(m)
  {
    seq(|ts|, i requires 0 <= i < |ts| && Positive(m) => ReplaceOnce(m, ts[i]))
  }

  function ReplaceOnce(m: Mapping, t: Token): Token
    requires Positive(m)
  {
    match t
    case Plain(_) => t
    case Parens(_) => ReplaceAuthorYear(m, t)
    case Brackets(_) => ReplaceAuthorYear(m, t)
    case Numeric(items) => Numeric(ReplaceNumbers(m, items))
  }

  /** The number that replaces an author-year marker is not itself a citation that gets
      another number. */
  predicate Settled(m: Mapping, t: Token) {
    (t.Parens? || t.Brackets?) && Normalize(t.raw) in m && m[Normalize(t.raw)] > 0 ==>
      var n := m[Normalize(t.raw)];
      Str(n) in m ==> m[Str(n)] == n
  }

  /** Three passes in a row equal one simultaneous substitution exactly when every author-year
      marker of the text is settled. */
  lemma PassesAreSimultaneous(m: Mapping, ts: Tokens)
    requires Positive(m)
    ensures ReplaceCitations(m, ts) == Simultaneous(m, ts) <==> forall i :: 0 <= i < |ts| ==> Settled(m, ts[i])
  {
    forall i | 0 <= i < |ts| ensures ReplaceCitations(m, ts)[i] == Simultaneous(m, ts)[i] <==> Settled(m, ts[i]) {
      TokenPasses(m, ts[i]);
    }
    if ReplaceCitations(m, ts) == Simultaneous(m, ts) {
      forall i | 0 <= i < |ts| ensures Settled(m, ts[i]) {
        assert ReplaceCitations(m, ts)[i] == Simultaneous(m, ts)[i];
      }
    }
  }

  lemma TokenPasses(m: Mapping, t: Token)
    requires Positive(m)
    ensures ReplaceCitations(m, [t])[0] == Simultaneous(m, [t])[0] <==> Settled(m, t)
  {
    if (t.Parens? || t.Brackets?) && Normalize(t.raw) in m {
      var n := m[Normalize(t.raw)];
      assert ReplaceCitations(m, [t])[0] == Numeric(ReplaceNumbers(m, [Str(n)]));
      assert ReplaceNumbers(m, [Str(n)]) == [ReplaceNumber(m, Str(n))];
      if Str(n) in m && Str(m[Str(n)]) == Str(n) {
        StrInjective(m[Str(n)], n);
      }
    }
  }

  // ----- whole documents -----

  /** The sections with an empty line between them. */
  function Merge(sections: seq<Tokens>): Tokens {
    if sections == [] then []
    else if |sections| == 1 then sections[0]
    else Merge(sections[..|sections| - 1]) + [Plain("\n\n")] + sections[|sections| - 1]
  }

  lemma {:induction false} MergeKeepsTokens(sections: seq<Tokens>, t: Token)
    ensures !t.Plain? ==> (t in Merge(sections) <==> exists k :: 0 <= k < |sections| && t in sections[k])
  {
    if |sections| > 1 {
      var n := |sections| - 1;
      MergeKeepsTokens(sections[..n], t);
      assert forall k :: 0 <= k < n ==> sections[..n][k] == sections[k];
    }
  }

  /** Sections are merged in their order. */
  lemma {:induction false} MergeGrows(sections: seq<Tokens>, n: nat)
    requires n <= |sections|
    ensures Merge(sections[..n]) <= Merge(sections)
    decreases |sections|
  {
    if n == |sections| {
      assert sections[..n] == sections;
    } else if |sections| > 1 {
      MergeGrows(sections[..|sections| - 1], n);
      assert sections[..|sections| - 1][..n] == sections[..n];
    }
  }

  function CitationsOf(sections: seq<Tokens>): seq<string> {
    Dedupe(AllKeys(Merge(sections)))
  }

  /** The mapping that all sections share. */
  function SharedMapping(sections: seq<Tokens>): Mapping {
    MappingOf(CitationsOf(sections))
  }

  /** The citations that one marker makes. */
  function KeysOf(t: Token): seq<string> {
    match t
    case Plain(_) => []
    case Parens(raw) => [Normalize(raw)]
    case Brackets(raw) => [Normalize(raw)]
    case Numeric(items) => items
  }

  lemma {:induction false} KeysAreCollected(ts: Tokens, k: string)
    requires WellFormed(ts)
    ensures k in AllKeys(ts) <==> exists t: Token :: t in ts && k in KeysOf(t)
  {
    if ts != [] {
      var g, t := ts[..|ts| - 1], ts[|ts| - 1];
      assert ts == g + [t];
      assert WellFormed(g);
      KeysAreCollected(g, k);
      if t.Parens? || t.Brackets? {
        NormalizeKeepsInitial(t.raw);
      }
      assert k in AllKeys(ts) <==> k in AllKeys(g) || k in KeysOf(t);
    }
  }

  ghost predicate AllWellFormed(sections: seq<Tokens>) {
    forall k :: 0 <= k < |sections| ==> WellFormed(sections[k])
  }

  lemma {:induction false} MergeWellFormed(sections: seq<Tokens>)
    requires AllWellFormed(sections)
    ensures WellFormed(Merge(sections))
  {
    if |sections| > 1 {
      MergeWellFormed(sections[..|sections| - 1]);
    }
  }

  /** The citations of a document are exactly those of its markers, each once, and the shared
      mapping numbers them by their position in the reference list. */
  lemma SharedMappingIsBijection(sections: seq<Tokens>)
    requires AllWellFormed(sections)
    ensures var c, m := CitationsOf(sections), SharedMapping(sections);
            && Distinct(c)
            && (forall k :: k in c <==> exists s: Tokens, t: Token :: s in sections && t in s && k in KeysOf(t))
            && (forall k :: k in m <==> k in c)
            && (forall i :: 0 <= i < |c| ==> m[c[i]] == i + 1)
            && Positive(m)
  {
    var all := AllKeys(Merge(sections));
    DedupeExact(all);
    MappingIsBijection(CitationsOf(sections));
    MergeWellFormed(sections);
    forall k ensures k in all <==> exists s: Tokens, t: Token :: s in sections && t in s && k in KeysOf(t) {
      KeysAreCollected(Merge(sections), k);
      forall t: Token ensures !t.Plain? ==> (t in Merge(sections) <==> exists s :: s in sections && t in s) {
        MergeKeepsTokens(sections, t);
      }
    }
  }

  /** `i` is the position of citation `k` in the reference list. */
  predicate CitedAs(c: seq<string>, k: string, number: string) {
    exists i :: 0 <= i < |c| && c[i] == k && number == Str(i + 1)
  }

  /** A marker that cites the references of its own keys, in their order. */
  ghost predicate PointsToOwn(c: seq<string>, before: Token, after: Token) {
    if before.Plain? then after == before
    else after.Numeric? && |after.items| == |KeysOf(before)|
         && forall j :: 0 <= j < |after.items| ==> CitedAs(c, KeysOf(before)[j], after.items[j])
  }

  /** The simultaneous substitution with the shared mapping makes every marker of every
      section point to its own reference. */
  lemma SimultaneousPointsToOwn(sections: seq<Tokens>, k: nat, i: nat)
    requires AllWellFormed(sections) && k < |sections| && i < |sections[k]|
    ensures Positive(SharedMapping(sections))
    ensures PointsToOwn(CitationsOf(sections), sections[k][i], Simultaneous(SharedMapping(sections), sections[k])[i])
  {
    SharedMappingIsBijection(sections);
    var t := sections[k][i];
    forall key | key in KeysOf(t)
      ensures key in SharedMapping(sections) && CitedAs(CitationsOf(sections), key, Str(SharedMapping(sections)[key]))
    {
      MarkerIsCited(sections, k, t, key);
    }
    OnceIsOwn(SharedMapping(sections), CitationsOf(sections), t);
  }

  lemma OnceIsOwn(m: Mapping, c: seq<string>, t: Token)
    requires Positive(m) && forall key :: key in KeysOf(t) ==> key in m && CitedAs(c, key, Str(m[key]))
    ensures PointsToOwn(c, t, ReplaceOnce(m, t))
  {
    match t
    case Plain(_) =>
    case Parens(raw) => assert KeysOf(t)[0] in m;
    case Brackets(raw) => assert KeysOf(t)[0] in m;
    case Numeric(items) => assert forall j :: 0 <= j < |items| ==> items[j] in KeysOf(t);
  }

  lemma MarkerIsCited(sections: seq<Tokens>, k: nat, t: Token, key: string)
    requires AllWellFormed(sections) && k < |sections| && t in sections[k] && key in KeysOf(t)
    ensures var c, m := CitationsOf(sections), SharedMapping(sections);
            key in m && m[key] > 0 && CitedAs(c, key, Str(m[key]))
  {
    SharedMappingIsBijection(sections);
    var c := CitationsOf(sections);
    assert sections[k] in sections;
    assert key in c;
    var p :| 0 <= p < |c| && c[p] == key;
  }

  /** Two author-year markers of a document get the same number exactly when their texts differ
      in nothing but whitespace around and between the words. */
  lemma SharedNumber(sections: seq<Tokens>, k: nat, l: nat, t: Token, u: Token)
    requires AllWellFormed(sections) && k < |sections| && l < |sections| && t in sections[k] && u in sections[l]
    requires (t.Parens? || t.Brackets?) && (u.Parens? || u.Brackets?)
    ensures var m := SharedMapping(sections);
            && Normalize(t.raw) in m && Normalize(u.raw) in m
            && (m[Normalize(t.raw)] == m[Normalize(u.raw)] <==> exists ws :: HasWords(t.raw, ws) && HasWords(u.raw, ws))
  {
    SharedMappingIsBijection(sections);
    assert Normalize(t.raw) in KeysOf(t) && Normalize(u.raw) in KeysOf(u);
    MarkerIsCited(sections, k, t, Normalize(t.raw));
    MarkerIsCited(sections, l, u, Normalize(u.raw));
    DifferentNumbers(CitationsOf(sections), SharedMapping(sections), Normalize(t.raw), Normalize(u.raw));
    SameCitation(t.raw, u.raw);
  }

  lemma DifferentNumbers(c: seq<string>, m: Mapping, x: string, y: string)
    requires (forall k :: k in m <==> k in c) && x in m && y in m
    requires forall i :: 0 <= i < |c| ==> m[c[i]] == i + 1
    ensures m[x] == m[y] <==> x == y
  {
    var i :| 0 <= i < |c| && c[i] == x;
    var j :| 0 <= j < |c| && c[j] == y;
  }

  lemma OwnIsUnique(c: seq<string>, before: Token, x: Token, y: Token)
    requires Distinct(c) && PointsToOwn(c, before, x) && PointsToOwn(c, before, y)
    ensures x == y
  {
    if !before.Plain? {
      forall j | 0 <= j < |x.items| ensures x.items[j] == y.items[j] {
        var k := KeysOf(before)[j];
        var i :| 0 <= i < |c| && c[i] == k && x.items[j] == Str(i + 1);
        var n :| 0 <= n < |c| && c[n] == k && y.items[j] == Str(n + 1);
        assert i == n;
      }
      assert x.items == y.items;
    }
  }

  /** When renumbering is right, whatever kinds of citation a document uses: after the three
      passes every marker of a section points to its own references exactly when each of its
      author-year markers is settled. */
  lemma MarkersPointToOwn(sections: seq<Tokens>, k: nat)
    requires AllWellFormed(sections) && k < |sections|
    ensures Positive(SharedMapping(sections))
    ensures (forall i :: 0 <= i < |sections[k]| ==>
               PointsToOwn(CitationsOf(sections), sections[k][i], ReplaceCitations(SharedMapping(sections), sections[k])[i]))
            <==> forall i :: 0 <= i < |sections[k]| ==> Settled(SharedMapping(sections), sections[k][i])
  {
    SharedMappingIsBijection(sections);
    var c, m, ts := CitationsOf(sections), SharedMapping(sections), sections[k];
    PassesAreSimultaneous(m, ts);
    forall i | 0 <= i < |ts| ensures PointsToOwn(c, ts[i], Simultaneous(m, ts)[i]) {
      SimultaneousPointsToOwn(sections, k, i);
    }
    var r := ReplaceCitations(m, ts);
    if forall i :: 0 <= i < |ts| ==> PointsToOwn(c, ts[i], r[i]) {
      forall i | 0 <= i < |ts| ensures r[i] == Simultaneous(m, ts)[i] {
        OwnIsUnique(c, ts[i], r[i], Simultaneous(m, ts)[i]);
      }
      assert r == Simultaneous(m, ts);
    }
  }

  predicate AuthorYearOnly(sections: seq<Tokens>) {
    forall s, t :: s in sections && t in s ==> !t.Numeric?
  }

  predicate NumericOnly(sections: seq<Tokens>) {
    forall s, t :: s in sections && t in s ==> t.Plain? || t.Numeric?
  }

  /** Documents that use one kind of citation: the three passes are the simultaneous
      substitution, and every marker points to its own reference. */
  lemma UniformDocuments(sections: seq<Tokens>, k: nat)
    requires AllWellFormed(sections) && k < |sections|
    requires AuthorYearOnly(sections) || NumericOnly(sections)
    ensures Positive(SharedMapping(sections))
    ensures var r := ReplaceCitations(SharedMapping(sections), sections[k]);
            && r == Simultaneous(SharedMapping(sections), sections[k])
            && forall i :: 0 <= i < |sections[k]| ==> PointsToOwn(CitationsOf(sections), sections[k][i], r[i])
  {
    SharedMappingIsBijection(sections);
    var m := SharedMapping(sections);
    forall i | 0 <= i < |sections[k]| ensures Settled(m, sections[k][i]) {
      assert sections[k] in sections && sections[k][i] in sections[k];
      var t := sections[k][i];
      if (t.Parens? || t.Brackets?) && Normalize(t.raw) in m {
        NumbersAreNoKeys(sections, m[Normalize(t.raw)]);
      }
    }
    PassesAreSimultaneous(m, sections[k]);
    forall i | 0 <= i < |sections[k]| ensures PointsToOwn(CitationsOf(sections), sections[k][i], Simultaneous(m, sections[k])[i]) {
      SimultaneousPointsToOwn(sections, k, i);
    }
  }

  /** Where all citations are author-year, no number is a citation. */
  lemma NumbersAreNoKeys(sections: seq<Tokens>, n: nat)
    requires AllWellFormed(sections) && AuthorYearOnly(sections)
    ensures Str(n) !in SharedMapping(sections)
  {
    StrRoundTrip(n);
    if Str(n) in SharedMapping(sections) {
      AuthorYearKeyIsCapital(sections, Str(n));
    }
  }

  lemma AuthorYearKeyIsCapital(sections: seq<Tokens>, key: string)
    requires AllWellFormed(sections) && AuthorYearOnly(sections) && key in SharedMapping(sections)
    ensures key != [] && 'A' <= key[0] <= 'Z'
  {
    SharedMappingIsBijection(sections);
    var s, t :| s in sections && t in s && key in KeysOf(t);
    NormalizeKeepsInitial(t.raw);
  }

  /** In a mixed document the last pass re-maps what the first has written: an author-year
      marker followed by `[1]` leaves both markers at the second reference. */
  lemma MixedDocumentFails(raw: string)
    requires AuthorYear(raw)
    ensures var ts := [Parens(raw), Numeric([Str(1)])];
            && WellFormed(ts) && CitationsOf([ts]) == [Normalize(raw), Str(1)]
            && Positive(SharedMapping([ts]))
            && ReplaceCitations(SharedMapping([ts]), ts) == [Numeric([Str(2)]), Numeric([Str(2)])]
  {
    MixedIsWellFormed(raw);
    MixedKeys(raw);
    TwoCitations(Parens(raw), Numeric([Str(1)]), Normalize(raw), Str(1));
  }

  lemma MixedIsWellFormed(raw: string)
    requires AuthorYear(raw)
    ensures WellFormed([Parens(raw), Numeric([Str(1)])])
  {
    StrRoundTrip(1);
  }

  lemma MixedKeys(raw: string)
    requires AuthorYear(raw)
    ensures Dedupe(AllKeys([Parens(raw), Numeric([Str(1)])])) == [Normalize(raw), Str(1)]
  {
    NormalizeKeepsInitial(raw);
    StrRoundTrip(1);
    TwoMarkers(Parens(raw), Numeric([Str(1)]));
    DedupeTwo(Normalize(raw), Str(1));
  }

  lemma TwoCitations(p: Token, q: Token, key: string, one: string)
    requires p.Parens? && Normalize(p.raw) == key && q == Numeric([one]) && one == Str(1)
    requires WellFormed([p, q]) && Dedupe(AllKeys([p, q])) == [key, one]
    ensures CitationsOf([[p, q]]) == [key, one] && Positive(SharedMapping([[p, q]]))
    ensures ReplaceCitations(SharedMapping([[p, q]]), [p, q]) == [Numeric([Str(2)]), Numeric([Str(2)])]
  {
    var m := SharedMapping([[p, q]]);
    assert CitationsOf([[p, q]]) == [key, one];
    SharedMappingIsBijection([[p, q]]);
    assert m[[key, one][0]] == 1 && m[[key, one][1]] == 2;
    RenumberedTwice(m, [p, q], key);
  }

  lemma RenumberedTwice(m: Mapping, ts: Tokens, key: string)
    requires Positive(m) && key in m && Str(1) in m && m[key] == 1 && m[Str(1)] == 2
    requires |ts| == 2 && ts[0].Parens? && Normalize(ts[0].raw) == key && ts[1] == Numeric([Str(1)])
    ensures ReplaceCitations(m, ts) == [Numeric([Str(2)]), Numeric([Str(2)])]
  {
    assert ReplaceNumbers(m, [Str(1)]) == [Str(2)];
    var r := ReplaceCitations(m, ts);
    assert r[0] == Numeric([Str(2)]) && r[1] == Numeric([Str(2)]);
  }

  lemma TwoMarkers(p: Token, q: Token)
    requires p.Parens? && Normalize(p.raw) != "" && q.Numeric?
    ensures AllKeys([p, q]) == [Normalize(p.raw)] + q.items
  {
    var key := Normalize(p.raw);
    assert [p, q][..1] == [p] && [p][..0] == [];
    assert AuthorYearKeys([], false) == [] && AuthorYearKeys([], true) == [] && NumericKeys([]) == [];
    assert AuthorYearKeys([p], false) == [key] && AuthorYearKeys([p], true) == [] && NumericKeys([p]) == [];
    assert AuthorYearKeys([p, q], false) == [key] && AuthorYearKeys([p, q], true) == [] && NumericKeys([p, q]) == q.items;
  }

  lemma DedupeTwo(x: string, y: string)
    requires x != y
    ensures Dedupe([x] + [y]) == [x, y]
  {
    assert ([x] + [y])[..1] == [x] && [x][..0] == [];
    assert Dedupe([]) == [] && Dedupe([x]) == [x];
  }
}
