/** The size validator of `backend/app/core/validator_ext.py` and the sanitizer for whole
    manuscripts, on the values that the manuscript objects hold. */
module SizeChecks {
  import opened Arithmetic
  import opened Text
  import opened Sanitizer

  datatype Paragraph = Paragraph(text: string, style: Option<string>, alignment: Option<string>)

  datatype Section = Section(heading: string, content: seq<Paragraph>, subsections: seq<Section>)

  datatype Author = Author(
    firstName: string, lastName: string,
    email: Option<string>, affiliation: Option<string>, orcid: Option<string>)

  datatype Reference = Reference(
    title: string, journal: Option<string>, publisher: Option<string>,
    doi: Option<string>, url: Option<string>)

  datatype Manuscript = Manuscript(
    title: string, abstract_: Option<string>, keywords: seq<string>,
    authors: seq<Author>, sections: seq<Section>, references: seq<Reference>,
    acknowledgments: Option<string>, fundingStatement: Option<string>, conflictOfInterest: Option<string>,
    correspondingAuthor: Option<Author>)

  const MAX_TITLE_LENGTH := 1000
  const MAX_ABSTRACT_LENGTH := 5000
  const MAX_SECTIONS := 100
  const MAX_SECTION_DEPTH := 10
  const MAX_AUTHORS := 50
  const MAX_REFERENCES := 500
  const MAX_KEYWORDS := 20
  const MAX_KEYWORD_LENGTH := 100
  const MAX_TOTAL_PARAGRAPHS := 10000
  const ALLOWED_ALIGNMENTS := {"left", "center", "right", "justify"}
  const ALLOWED_PARAGRAPH_STYLES := {"normal", "bold", "italic", "heading", "quote", "code"}

  // ----- sanitizing -----

  function Bounded(s: string, n: int): string {
    SanitizeString(s, Some(n))
  }

  /** A field that is missing or empty is left as it is. */
  function BoundedField(f: Option<string>, n: int): Option<string> {
    if f.Some? && f.value != "" then Some(Bounded(f.value, n)) else f
  }

  function Restricted(f: Option<string>, allowed: set<string>): Option<string> {
    if f.Some? && f.value != "" && f.value !in allowed then None else f
  }

  function SanitizeParagraph(p: Paragraph): Paragraph {
    Paragraph(Bounded(p.text, 50000),
              Restricted(p.style, ALLOWED_PARAGRAPH_STYLES),
              Restricted(p.alignment, ALLOWED_ALIGNMENTS))
  }

  function SanitizeParagraphs(ps: seq<Paragraph>): seq<Paragraph> {
    seq(|ps|, i requires 0 <= i < |ps| => SanitizeParagraph(ps[i]))
  }

  function SanitizeSection(s: Section): Section {
    Section(Bounded(s.heading, 500), SanitizeParagraphs(s.content), SanitizeSections(s.subsections))
  }

  function SanitizeSections(ss: seq<Section>): seq<Section> {
    seq(|ss|, i requires 0 <= i < |ss| => SanitizeSection(ss[i]))
  }

  function SanitizeAuthor(a: Author): Author {
    Author(Bounded(a.firstName, 100), Bounded(a.lastName, 100),
           BoundedField(a.email, 254), BoundedField(a.affiliation, 500), BoundedField(a.orcid, 50))
  }

  /** The corresponding author's ORCID is not touched. */
  function SanitizeCorresponding(a: Author): Author {
    SanitizeAuthor(a).(orcid := a.orcid)
  }

  function SanitizeReference(r: Reference): Reference {
    Reference(Bounded(r.title, 1000), BoundedField(r.journal, 500), BoundedField(r.publisher, 500),
              BoundedField(r.doi, 500), BoundedField(r.url, 2000))
  }

  function SanitizeAuthors(xs: seq<Author>): seq<Author> {
    seq(|xs|, i requires 0 <= i < |xs| => SanitizeAuthor(xs[i]))
  }

  function SanitizeReferences(xs: seq<Reference>): seq<Reference> {
    seq(|xs|, i requires 0 <= i < |xs| => SanitizeReference(xs[i]))
  }

  /** Keywords that are empty after sanitizing are dropped. */
  function SanitizeKeywords(ks: seq<string>): seq<string> {
    if ks == [] then []
    else
      var k := Bounded(ks[|ks| - 1], MAX_KEYWORD_LENGTH);
      SanitizeKeywords(ks[..|ks| - 1]) + (if k != "" then [k] else [])
  }

  function SanitizeManuscript(m: Manuscript): Manuscript {
    Manuscript(
      Bounded(m.title, MAX_TITLE_LENGTH),
      BoundedField(m.abstract_, MAX_ABSTRACT_LENGTH),
      SanitizeKeywords(m.keywords),
      SanitizeAuthors(m.authors),
      SanitizeSections(m.sections),
      SanitizeReferences(m.references),
      BoundedField(m.acknowledgments, 5000),
      BoundedField(m.fundingStatement, 2000),
      BoundedField(m.conflictOfInterest, 2000),
      if m.correspondingAuthor.Some? then Some(SanitizeCorresponding(m.correspondingAuthor.value)) else None)
  }

  // ----- what the recursive checks mean -----

  /** Height of a forest of sections; the empty forest has height 0. */
  ghost function Height(ss: seq<Section>): nat {
    if ss == [] then 0
    else Larger(1 + Height(ss[0].subsections), Height(ss[1..]))
  }

  /** Every paragraph of a forest, in document order. */
  ghost function AllParagraphs(ss: seq<Section>): seq<Paragraph> {
    if ss == [] then []
    else ss[0].content + AllParagraphs(ss[0].subsections) + AllParagraphs(ss[1..])
  }

  lemma {:induction false} HeightSnoc(ss: seq<Section>, s: Section)
    ensures Height(ss + [s]) == Larger(Height(ss), 1 + Height(s.subsections))
  {
    if ss == [] {
      assert ss + [s] == [s] && [s][1..] == [];
    } else {
      assert (ss + [s])[1..] == ss[1..] + [s];
      HeightSnoc(ss[1..], s);
    }
  }

  lemma {:induction false} AllParagraphsSnoc(ss: seq<Section>, s: Section)
    ensures AllParagraphs(ss + [s]) == AllParagraphs(ss) + s.content + AllParagraphs(s.subsections)
  {
    if ss == [] {
      assert ss + [s] == [s] && [s][1..] == [];
    } else {
      assert (ss + [s])[1..] == ss[1..] + [s];
      AllParagraphsSnoc(ss[1..], s);
    }
  }

  /** Started at depth 1 the accumulator ends at the height of the forest, or at 1 for a
      document without sections. */
  method CheckSectionDepth(sections: seq<Section>, depth: int) returns (maxDepth: int)
    ensures maxDepth == depth - 1 + Larger(1, Height(sections))
    decreases sections
  {
    maxDepth := depth;
    for i := 0 to |sections|
      invariant maxDepth == depth - 1 + Larger(1, Height(sections[..i]))
    {
      assert sections[..i + 1] == sections[..i] + [sections[i]];
      HeightSnoc(sections[..i], sections[i]);
      if sections[i].subsections != [] {
        var childDepth := CheckSectionDepth(sections[i].subsections, depth + 1);
        maxDepth := Larger(maxDepth, childDepth);
      }
    }
    assert sections[..|sections|] == sections;
  }

  method CountTotalParagraphs(sections: seq<Section>) returns (count: nat)
    ensures count == |AllParagraphs(sections)|
    decreases sections
  {
    count := 0;
    for i := 0 to |sections|
      invariant count == |AllParagraphs(sections[..i])|
    {
      assert sections[..i + 1] == sections[..i] + [sections[i]];
      AllParagraphsSnoc(sections[..i], sections[i]);
      var below := CountTotalParagraphs(sections[i].subsections);
      count := count + |sections[i].content|;
      count := count + below;
    }
    assert sections[..|sections|] == sections;
  }

  // ----- the size report -----

  datatype Issue =
    | TitleTooLong
    | AbstractTooLong
    | TooManyAuthors
    | TooManySections
    | TooManyReferences
    | TooManyKeywords
    | SectionDepthExceeded(depth: int)
    | TooManyParagraphs(total: int)

  /** Which issues a manuscript has. */
  ghost predicate Applies(m: Manuscript, issue: Issue) {
    match issue
    case TitleTooLong => |m.title| > MAX_TITLE_LENGTH
    case AbstractTooLong => m.abstract_.Some? && |m.abstract_.value| > MAX_ABSTRACT_LENGTH
    case TooManyAuthors => |m.authors| > MAX_AUTHORS
    case TooManySections => |m.sections| > MAX_SECTIONS
    case TooManyReferences => |m.references| > MAX_REFERENCES
    case TooManyKeywords => |m.keywords| > MAX_KEYWORDS
    case SectionDepthExceeded(d) => d == Larger(1, Height(m.sections)) && d > MAX_SECTION_DEPTH
    case TooManyParagraphs(n) => n == |AllParagraphs(m.sections)| && n > MAX_TOTAL_PARAGRAPHS
  }

  /** Reported as an error rather than as a warning. */
  predicate IsError(issue: Issue) {
    issue.TitleTooLong? || issue.TooManyAuthors? || issue.TooManySections? || issue.SectionDepthExceeded?
  }

  method ValidateManuscriptSize(m: Manuscript) returns (valid: bool, errors: seq<Issue>, warnings: seq<Issue>)
    ensures valid <==> errors == []
    ensures forall x :: x in errors <==> IsError(x) && Applies(m, x)
    ensures forall x :: x in warnings <==> !IsError(x) && Applies(m, x)
  {
    errors, warnings := [], [];
    if |m.title| > MAX_TITLE_LENGTH {
      errors := errors + [TitleTooLong];
    }
    if m.abstract_.Some? && m.abstract_.value != "" && |m.abstract_.value| > MAX_ABSTRACT_LENGTH {
      warnings := warnings + [AbstractTooLong];
    }
    if |m.authors| > MAX_AUTHORS {
      errors := errors + [TooManyAuthors];
    }
    if |m.sections| > MAX_SECTIONS {
      errors := errors + [TooManySections];
    }
    if |m.references| > MAX_REFERENCES {
      warnings := warnings + [TooManyReferences];
    }
    if |m.keywords| > MAX_KEYWORDS {
      warnings := warnings + [TooManyKeywords];
    }
    var maxDepth := CheckSectionDepth(m.sections, 1);
    if maxDepth > MAX_SECTION_DEPTH {
      errors := errors + [SectionDepthExceeded(maxDepth)];
    }
    var total := CountTotalParagraphs(m.sections);
    if total > MAX_TOTAL_PARAGRAPHS {
      warnings := warnings + [TooManyParagraphs(total)];
    }
    valid := |errors| == 0;
  }

  /** Which manuscripts are valid, and which raise no warning either. */
  lemma ValidManuscripts(m: Manuscript)
    ensures (forall x :: Applies(m, x) ==> !IsError(x)) <==>
            |m.title| <= 1000 && |m.authors| <= 50 && |m.sections| <= 100 && Height(m.sections) <= 10
    ensures (forall x :: Applies(m, x) ==> IsError(x)) <==>
            && (m.abstract_.Some? ==> |m.abstract_.value| <= 5000) && |m.references| <= 500 && |m.keywords| <= 20
            && |AllParagraphs(m.sections)| <= 10000
  {
    var depth, total := Larger(1, Height(m.sections)), |AllParagraphs(m.sections)|;
    if forall x :: Applies(m, x) ==> !IsError(x) {
      assert !Applies(m, TitleTooLong) && !Applies(m, TooManyAuthors) && !Applies(m, TooManySections);
      assert !Applies(m, SectionDepthExceeded(depth));
    }
    if forall x :: Applies(m, x) ==> IsError(x) {
      assert !Applies(m, AbstractTooLong) && !Applies(m, TooManyReferences) && !Applies(m, TooManyKeywords);
      assert !Applies(m, TooManyParagraphs(total));
    }
  }

  // ----- sanitizing and then checking -----

  lemma {:induction false} SanitizeKeepsShape(ss: seq<Section>)
    ensures Height(SanitizeSections(ss)) == Height(ss)
    ensures |AllParagraphs(SanitizeSections(ss))| == |AllParagraphs(ss)|
  {
    if ss != [] {
      SanitizeKeepsShape(ss[0].subsections);
      SanitizeKeepsShape(ss[1..]);
      assert SanitizeSections(ss)[1..] == SanitizeSections(ss[1..]);
    }
  }

  lemma {:induction false} SanitizeDropsKeywords(ks: seq<string>)
    ensures |SanitizeKeywords(ks)| <= |ks|
    ensures forall i :: 0 <= i < |SanitizeKeywords(ks)| ==> 0 < |SanitizeKeywords(ks)[i]| <= MAX_KEYWORD_LENGTH
  {
    if ks != [] {
      SanitizeDropsKeywords(ks[..|ks| - 1]);
      SanitizedIsSafe(ks[|ks| - 1], Some(MAX_KEYWORD_LENGTH));
    }
  }

  /** Sanitizing removes the title and abstract length issues, can only remove the keyword
      issue, adds none and leaves every other verdict of the size check as it was. */
  lemma SanitizeThenCheck(m: Manuscript, x: Issue)
    ensures var c := SanitizeManuscript(m);
            && (Applies(c, x) ==> Applies(m, x))
            && ((x.TitleTooLong? || x.AbstractTooLong?) ==> !Applies(c, x))
            && (!x.TitleTooLong? && !x.AbstractTooLong? && !x.TooManyKeywords? ==> (Applies(c, x) <==> Applies(m, x)))
  {
    SanitizeKeepsShape(m.sections);
    SanitizeDropsKeywords(m.keywords);
    SanitizedIsSafe(m.title, Some(MAX_TITLE_LENGTH));
    if m.abstract_.Some? {
      SanitizedIsSafe(m.abstract_.value, Some(MAX_ABSTRACT_LENGTH));
    }
  }

  // ----- what sanitizing a manuscript leaves -----

  /** A text within its bound without control characters and tags; with `settled` also without
      whitespace at its ends. */
  predicate GoodText(s: string, n: nat, settled: bool) {
    |s| <= n && NoControl(s) && NoTag(s) && (settled ==> Trimmed(s))
  }

  predicate GoodField(f: Option<string>, n: nat, settled: bool) {
    f.Some? ==> GoodText(f.value, n, settled)
  }

  predicate GoodParagraph(p: Paragraph, settled: bool) {
    && GoodText(p.text, 50000, settled)
    && (p.style.Some? ==> p.style.value in {"", "normal", "bold", "italic", "heading", "quote", "code"})
    && (p.alignment.Some? ==> p.alignment.value in {"", "left", "center", "right", "justify"})
  }

  ghost predicate GoodSection(s: Section, settled: bool) {
    && GoodText(s.heading, 500, settled)
    && (forall i :: 0 <= i < |s.content| ==> GoodParagraph(s.content[i], settled))
    && forall i :: 0 <= i < |s.subsections| ==> GoodSection(s.subsections[i], settled)
  }

  predicate GoodCorresponding(a: Author, settled: bool) {
    && GoodText(a.firstName, 100, settled) && GoodText(a.lastName, 100, settled)
    && GoodField(a.email, 254, settled) && GoodField(a.affiliation, 500, settled)
  }

  predicate GoodAuthor(a: Author, settled: bool) {
    GoodCorresponding(a, settled) && GoodField(a.orcid, 50, settled)
  }

  predicate GoodReference(r: Reference, settled: bool) {
    && GoodText(r.title, 1000, settled) && GoodField(r.journal, 500, settled) && GoodField(r.publisher, 500, settled)
    && GoodField(r.doi, 500, settled) && GoodField(r.url, 2000, settled)
  }

  predicate GoodKeywords(ks: seq<string>, settled: bool) {
    forall i :: 0 <= i < |ks| ==> ks[i] != "" && GoodText(ks[i], 100, settled)
  }

  ghost predicate GoodManuscript(m: Manuscript, settled: bool) {
    && GoodText(m.title, 1000, settled) && GoodField(m.abstract_, 5000, settled)
    && GoodKeywords(m.keywords, settled)
    && (forall i :: 0 <= i < |m.authors| ==> GoodAuthor(m.authors[i], settled))
    && (forall i :: 0 <= i < |m.sections| ==> GoodSection(m.sections[i], settled))
    && (forall i :: 0 <= i < |m.references| ==> GoodReference(m.references[i], settled))
    && GoodField(m.acknowledgments, 5000, settled) && GoodField(m.fundingStatement, 2000, settled)
    && GoodField(m.conflictOfInterest, 2000, settled)
    && (m.correspondingAuthor.Some? ==> GoodCorresponding(m.correspondingAuthor.value, settled))
  }

  lemma BoundedIsGood(s: string, n: nat)
    requires n > 0
    ensures GoodText(Bounded(s, n), n, false)
    ensures Bounded(s, n) == s <==> GoodText(s, n, true)
  {
    SanitizedIsSafe(s, Some(n));
    SanitizeFixpoints(s, Some(n));
  }

  lemma FieldIsGood(f: Option<string>, n: nat)
    requires n > 0
    ensures GoodField(BoundedField(f, n), n, false)
    ensures BoundedField(f, n) == f <==> GoodField(f, n, true)
  {
    if f.Some? {
      BoundedIsGood(f.value, n);
    }
  }

  lemma ParagraphIsGood(p: Paragraph)
    ensures GoodParagraph(SanitizeParagraph(p), false)
    ensures SanitizeParagraph(p) == p <==> GoodParagraph(p, true)
  {
    BoundedIsGood(p.text, 50000);
  }

  lemma ParagraphsAreGood(ps: seq<Paragraph>)
    ensures forall i :: 0 <= i < |ps| ==> GoodParagraph(SanitizeParagraphs(ps)[i], false)
    ensures SanitizeParagraphs(ps) == ps <==> forall i :: 0 <= i < |ps| ==> GoodParagraph(ps[i], true)
  {
    forall i | 0 <= i < |ps|
      ensures GoodParagraph(SanitizeParagraph(ps[i]), false) && (SanitizeParagraph(ps[i]) == ps[i] <==> GoodParagraph(ps[i], true))
    {
      ParagraphIsGood(ps[i]);
    }
    assert SanitizeParagraphs(ps) == ps <==> forall i :: 0 <= i < |ps| ==> SanitizeParagraphs(ps)[i] == ps[i];
  }

  lemma {:induction false} SectionsAreGood(ss: seq<Section>)
    ensures forall i :: 0 <= i < |ss| ==> GoodSection(SanitizeSections(ss)[i], false)
    ensures SanitizeSections(ss) == ss <==> forall i :: 0 <= i < |ss| ==> GoodSection(ss[i], true)
    decreases ss
  {
    forall i | 0 <= i < |ss|
      ensures GoodSection(SanitizeSection(ss[i]), false) && (SanitizeSection(ss[i]) == ss[i] <==> GoodSection(ss[i], true))
    {
      SectionIsGood(ss[i]);
    }
    assert SanitizeSections(ss) == ss <==> forall i :: 0 <= i < |ss| ==> SanitizeSections(ss)[i] == ss[i];
  }

  lemma {:induction false} SectionIsGood(s: Section)
    ensures GoodSection(SanitizeSection(s), false)
    ensures SanitizeSection(s) == s <==> GoodSection(s, true)
    decreases s
  {
    BoundedIsGood(s.heading, 500);
    ParagraphsAreGood(s.content);
    SectionsAreGood(s.subsections);
  }

  lemma CorrespondingIsGood(a: Author)
    ensures GoodCorresponding(SanitizeCorresponding(a), false)
    ensures SanitizeCorresponding(a) == a <==> GoodCorresponding(a, true)
  {
    BoundedIsGood(a.firstName, 100);
    BoundedIsGood(a.lastName, 100);
    FieldIsGood(a.email, 254);
    FieldIsGood(a.affiliation, 500);
  }

  lemma AuthorIsGood(a: Author)
    ensures GoodAuthor(SanitizeAuthor(a), false)
    ensures SanitizeAuthor(a) == a <==> GoodAuthor(a, true)
  {
    CorrespondingIsGood(a);
    FieldIsGood(a.orcid, 50);
  }

  lemma ReferenceIsGood(r: Reference)
    ensures GoodReference(SanitizeReference(r), false)
    ensures SanitizeReference(r) == r <==> GoodReference(r, true)
  {
    BoundedIsGood(r.title, 1000);
    FieldIsGood(r.journal, 500);
    FieldIsGood(r.publisher, 500);
    FieldIsGood(r.doi, 500);
    FieldIsGood(r.url, 2000);
  }

  lemma {:induction false} KeywordsAreGood(ks: seq<string>)
    ensures GoodKeywords(SanitizeKeywords(ks), false) && |SanitizeKeywords(ks)| <= |ks|
    ensures SanitizeKeywords(ks) == ks <==> GoodKeywords(ks, true)
  {
    if ks != [] {
      var n := |ks| - 1;
      KeywordsAreGood(ks[..n]);
      BoundedIsGood(ks[n], 100);
      assert ks == ks[..n] + [ks[n]];
    }
  }

  lemma ListsAreGood(m: Manuscript)
    ensures var c := SanitizeManuscript(m);
            && (forall i :: 0 <= i < |c.authors| ==> GoodAuthor(c.authors[i], false))
            && (forall i :: 0 <= i < |c.sections| ==> GoodSection(c.sections[i], false))
            && (forall i :: 0 <= i < |c.references| ==> GoodReference(c.references[i], false))
            && (c.authors == m.authors <==> forall i :: 0 <= i < |m.authors| ==> GoodAuthor(m.authors[i], true))
            && (c.sections == m.sections <==> forall i :: 0 <= i < |m.sections| ==> GoodSection(m.sections[i], true))
            && (c.references == m.references <==> forall i :: 0 <= i < |m.references| ==> GoodReference(m.references[i], true))
  {
    forall i | 0 <= i < |m.authors|
      ensures GoodAuthor(SanitizeAuthor(m.authors[i]), false) && (SanitizeAuthor(m.authors[i]) == m.authors[i] <==> GoodAuthor(m.authors[i], true))
    {
      AuthorIsGood(m.authors[i]);
    }
    SectionsAreGood(m.sections);
    forall i | 0 <= i < |m.references|
      ensures GoodReference(SanitizeReference(m.references[i]), false) && (SanitizeReference(m.references[i]) == m.references[i] <==> GoodReference(m.references[i], true))
    {
      ReferenceIsGood(m.references[i]);
    }
    var c := SanitizeManuscript(m);
    assert c.authors == m.authors <==> forall i :: 0 <= i < |m.authors| ==> c.authors[i] == m.authors[i];
    assert c.references == m.references <==> forall i :: 0 <= i < |m.references| ==> c.references[i] == m.references[i];
  }

  /** After sanitizing every text of a manuscript is within its bound and free of control
      characters and tags, styles and alignments are allowed ones, and no keyword is empty. */
  lemma SanitizedManuscriptIsGood(m: Manuscript)
    ensures GoodManuscript(SanitizeManuscript(m), false)
  {
    BoundedIsGood(m.title, 1000);
    FieldIsGood(m.abstract_, 5000);
    KeywordsAreGood(m.keywords);
    ListsAreGood(m);
    FieldIsGood(m.acknowledgments, 5000);
    FieldIsGood(m.fundingStatement, 2000);
    FieldIsGood(m.conflictOfInterest, 2000);
    if m.correspondingAuthor.Some? {
      CorrespondingIsGood(m.correspondingAuthor.value);
    }
  }

  /** Which manuscripts sanitizing leaves alone. */
  lemma ManuscriptFixpoints(m: Manuscript)
    ensures SanitizeManuscript(m) == m <==> GoodManuscript(m, true)
  {
    BoundedIsGood(m.title, 1000);
    FieldIsGood(m.abstract_, 5000);
    KeywordsAreGood(m.keywords);
    ListsAreGood(m);
    FieldIsGood(m.acknowledgments, 5000);
    FieldIsGood(m.fundingStatement, 2000);
    FieldIsGood(m.conflictOfInterest, 2000);
    if m.correspondingAuthor.Some? {
      CorrespondingIsGood(m.correspondingAuthor.value);
    }
  }
}
