/** The conversions between the API models (`backend/app/schemas/models.py`) and the domain
    objects of `backend/app/domain/models.py`. */
module Manuscripts {
  import opened Text

  type Field = Option<string>

  // ----- API models -----

  datatype Author = Author(firstName: string, lastName: string, affiliation: Field, email: Field, orcid: Field)

  datatype Paragraph = Paragraph(text: string, style: Field, alignment: Field, indent: Option<real>, bullet: Option<bool>)

  datatype Section = Section(heading: string, level: int, content: seq<Paragraph>, subsections: seq<Section>)

  datatype Reference = Reference(
    authors: seq<Author>, year: Field, title: string, journal: Field, bookTitle: Field, publisher: Field,
    volume: Field, issue: Field, pages: Field, doi: Field, url: Field, isbn: Field)

  datatype Manuscript = Manuscript(
    title: string, authors: seq<Author>, abstract_: Field, keywords: seq<string>, sections: seq<Section>,
    references: seq<Reference>, acknowledgments: Field, fundingStatement: Field, conflictOfInterest: Field,
    correspondingAuthor: Option<Author>)

  // ----- domain objects -----

  datatype DomainAuthor = DomainAuthor(name: string, email: Field, affiliation: Field, orcid: Field,
                                       firstName: string, lastName: string)

  datatype DomainParagraph = DomainParagraph(text: string, style: Field, alignment: Field, indent: Option<real>,
                                             bullet: Option<bool>)

  datatype DomainSection = DomainSection(title: string, content: seq<DomainParagraph>, level: int,
                                         subsections: seq<DomainSection>, heading: string)

  datatype DomainReference = DomainReference(
    id: Field, title: string, authors: seq<DomainAuthor>, journal: Field, year: Field, doi: Field, rawText: Field,
    bookTitle: Field, publisher: Field, volume: Field, issue: Field, pages: Field, url: Field, isbn: Field)

  datatype DomainManuscript = DomainManuscript(
    title: string, authors: seq<DomainAuthor>, abstract_: Field, keywords: seq<string>,
    sections: seq<DomainSection>, references: seq<DomainReference>, metadata: map<string, Field>,
    acknowledgments: Field, fundingStatement: Field, conflictOfInterest: Field,
    correspondingAuthor: Option<DomainAuthor>)

  // ----- authors -----

  /** Position of the last blank, or -1. */
  function LastBlank(s: string): (i: int)
    ensures -1 <= i < |s|
    ensures i >= 0 ==> s[i] == ' '
    ensures forall k :: i < k < |s| ==> s[k] != ' '
  {
    if s == [] then -1
    else if s[|s| - 1] == ' ' then |s| - 1
    else LastBlank(s[..|s| - 1])
  }

  /** `name.rsplit(" ", 1)`, with an empty last name where there is nothing to split. */
  function SplitName(name: string): (string, string) {
    var i := LastBlank(name);
    if i >= 0 then (name[..i], name[i + 1..]) else (name, "")
  }

  /** First and last name with a blank between, stripped. */
  function FullName(first: string, last: string): string {
    Strip(first + " " + last)
  }

  /** The constructor with `__post_init__`. */
  function MakeAuthor(name: string, email: Field, affiliation: Field, orcid: Field, first: string, last: string): DomainAuthor {
    if name == "" && (first != "" || last != "") then
      DomainAuthor(FullName(first, last), email, affiliation, orcid, first, last)
    else if name != "" && first == "" && last == "" then
      var (f, l) := SplitName(name);
      DomainAuthor(name, email, affiliation, orcid, f, l)
    else DomainAuthor(name, email, affiliation, orcid, first, last)
  }

  function AuthorFrom(a: Author): DomainAuthor {
    MakeAuthor(FullName(a.firstName, a.lastName), a.email, a.affiliation, a.orcid, a.firstName, a.lastName)
  }

  function AuthorTo(a: DomainAuthor): Author {
    var (f, l) := if a.firstName == "" && a.lastName == "" && a.name != "" then SplitName(a.name)
                  else (a.firstName, a.lastName);
    Author(f, l, a.affiliation, a.email, a.orcid)
  }

  // ----- paragraphs, sections, references -----

  function ParagraphFrom(p: Paragraph): DomainParagraph {
    DomainParagraph(p.text, p.style, p.alignment, p.indent, p.bullet)
  }

  function ParagraphTo(p: DomainParagraph): Paragraph {
    Paragraph(p.text, p.style, p.alignment, p.indent, p.bullet)
  }

  /** Python's `a or b` on strings. */
  function Or(a: string, b: string): string {
    if a != "" then a else b
  }

  /** The constructor with `__post_init__`: title and heading fill in for each other. */
  function MakeSection(title: string, heading: string, level: int, content: seq<DomainParagraph>,
                       subsections: seq<DomainSection>): DomainSection {
    DomainSection(Or(title, heading), content, level, subsections, Or(heading, title))
  }

  function SectionFrom(s: Section): DomainSection {
    MakeSection(s.heading, s.heading, s.level,
                seq(|s.content|, i requires 0 <= i < |s.content| => ParagraphFrom(s.content[i])),
                seq(|s.subsections|, i requires 0 <= i < |s.subsections| => SectionFrom(s.subsections[i])))
  }

  function SectionTo(s: DomainSection): Section {
    Section(Or(s.heading, s.title), s.level,
            seq(|s.content|, i requires 0 <= i < |s.content| => ParagraphTo(s.content[i])),
            seq(|s.subsections|, i requires 0 <= i < |s.subsections| => SectionTo(s.subsections[i])))
  }

  function ReferenceFrom(r: Reference): DomainReference {
    DomainReference(None, r.title, seq(|r.authors|, i requires 0 <= i < |r.authors| => AuthorFrom(r.authors[i])),
                    r.journal, r.year, r.doi, None, r.bookTitle, r.publisher, r.volume, r.issue, r.pages, r.url, r.isbn)
  }

  function ReferenceTo(r: DomainReference): Reference {
    Reference(seq(|r.authors|, i requires 0 <= i < |r.authors| => AuthorTo(r.authors[i])),
              r.year, r.title, r.journal, r.bookTitle, r.publisher, r.volume, r.issue, r.pages, r.doi, r.url, r.isbn)
  }

  // ----- manuscripts -----

  /** A field that is missing or empty is looked up in the metadata. */
  function OrMeta(f: Field, metadata: map<string, Field>, key: string): Field {
    if f.Some? && f.value != "" then f else if key in metadata then metadata[key] else None
  }

  function ManuscriptFrom(m: Manuscript): DomainManuscript {
    DomainManuscript(
      m.title,
      seq(|m.authors|, i requires 0 <= i < |m.authors| => AuthorFrom(m.authors[i])),
      m.abstract_, m.keywords,
      seq(|m.sections|, i requires 0 <= i < |m.sections| => SectionFrom(m.sections[i])),
      seq(|m.references|, i requires 0 <= i < |m.references| => ReferenceFrom(m.references[i])),
      map["acknowledgments" := m.acknowledgments, "funding_statement" := m.fundingStatement,
          "conflict_of_interest" := m.conflictOfInterest],
      m.acknowledgments, m.fundingStatement, m.conflictOfInterest,
      if m.correspondingAuthor.Some? then Some(AuthorFrom(m.correspondingAuthor.value)) else None)
  }

  function ManuscriptTo(m: DomainManuscript): Manuscript {
    Manuscript(
      m.title,
      seq(|m.authors|, i requires 0 <= i < |m.authors| => AuthorTo(m.authors[i])),
      m.abstract_, m.keywords,
      seq(|m.sections|, i requires 0 <= i < |m.sections| => SectionTo(m.sections[i])),
      seq(|m.references|, i requires 0 <= i < |m.references| => ReferenceTo(m.references[i])),
      OrMeta(m.acknowledgments, m.metadata, "acknowledgments"),
      OrMeta(m.fundingStatement, m.metadata, "funding_statement"),
      OrMeta(m.conflictOfInterest, m.metadata, "conflict_of_interest"),
      if m.correspondingAuthor.Some? then Some(AuthorTo(m.correspondingAuthor.value)) else None)
  }

  // ----- round trips -----

  /** A name is split at its last blank; joining the parts again gives the name back, up to the
      whitespace around it. */
  lemma SplitThenJoin(name: string)
    ensures FullName(SplitName(name).0, SplitName(name).1) == Strip(name)
    ensures ' ' in name ==> name == SplitName(name).0 + " " + SplitName(name).1 && ' ' !in SplitName(name).1
    ensures ' ' !in name ==> SplitName(name) == (name, "")
  {
    var i := LastBlank(name);
    if i >= 0 {
      assert name[..i] + " " + name[i + 1..] == name;
    } else {
      assert name + " " + "" == name + " ";
      StripTrailing(name, " ");
    }
  }

  lemma StripTrailing(s: string, blank: string)
    requires AllSpace(blank)
    ensures Strip(s + blank) == Strip(s)
  {
    var pre, post := StripSplits(s);
    assert AllSpace(post + blank);
    assert s + blank == pre + Strip(s) + (post + blank);
    StripUnique(pre, Strip(s), post + blank);
  }

  lemma BlankNameIsEmpty()
    ensures FullName("", "") == ""
  {
    StripUnique("", "", " ");
    assert "" + "" + " " == "" + " " + "";
  }

  /** An API author survives, blank names included. */
  lemma AuthorRoundTrip(a: Author)
    ensures AuthorTo(AuthorFrom(a)) == a
  {
    if a.firstName == "" && a.lastName == "" {
      BlankNameIsEmpty();
    }
  }

  /** A domain author built from a name alone keeps that name through the API model, up to the
      whitespace around it. */
  lemma NameSurvives(name: string, email: Field, affiliation: Field, orcid: Field)
    ensures AuthorFrom(AuthorTo(MakeAuthor(name, email, affiliation, orcid, "", ""))).name == Strip(name)
  {
    SplitThenJoin(name);
    if name == "" {
      BlankNameIsEmpty();
    } else {
      var a := MakeAuthor(name, email, affiliation, orcid, "", "");
      assert AuthorTo(a).firstName == SplitName(name).0 && AuthorTo(a).lastName == SplitName(name).1;
      NameOfAuthorFrom(AuthorTo(a));
    }
  }

  lemma NameOfAuthorFrom(a: Author)
    ensures AuthorFrom(a).name == FullName(a.firstName, a.lastName)
    ensures AuthorFrom(a).firstName == a.firstName && AuthorFrom(a).lastName == a.lastName
  {
    if a.firstName == "" && a.lastName == "" {
      BlankNameIsEmpty();
    }
  }

  lemma SurvivesByName(a: DomainAuthor)
    requires a.firstName == "" && a.lastName == "" && a.name != "" ==> SplitName(a.name) == ("", "")
    ensures AuthorFrom(AuthorTo(a)) == a <==> a.name == FullName(a.firstName, a.lastName)
  {
    NameOfAuthorFrom(AuthorTo(a));
  }

  lemma TrimmedName(name: string)
    ensures FullName(SplitName(name).0, SplitName(name).1) == name <==> Trimmed(name)
  {
    SplitThenJoin(name);
    var _, _ := StripSplits(name);
    if Trimmed(name) {
      StripTrimmed(name);
    }
  }

  /** Which domain authors survive the way to the API model and back: those built without a
      name, from a name alone that has no whitespace around it, or with the name that their
      first and last names make. */
  lemma DomainAuthorRoundTrip(name: string, email: Field, affiliation: Field, orcid: Field, first: string, last: string)
    ensures var a := MakeAuthor(name, email, affiliation, orcid, first, last);
            AuthorFrom(AuthorTo(a)) == a <==>
            name == "" || (if first == "" && last == "" then Trimmed(name) else name == FullName(first, last))
  {
    SurvivesByName(MakeAuthor(name, email, affiliation, orcid, first, last));
    if name == "" {
      BlankNameIsEmpty();
    } else {
      TrimmedName(name);
    }
  }

  /** Sections survive at any nesting, empty headings included. */
  lemma {:induction false} SectionRoundTrip(s: Section)
    ensures SectionTo(SectionFrom(s)) == s
  {
    var t := SectionTo(SectionFrom(s));
    forall i | 0 <= i < |s.subsections| ensures t.subsections[i] == s.subsections[i] {
      SectionRoundTrip(s.subsections[i]);
    }
    assert t.content == s.content;
    assert t.subsections == s.subsections;
  }

  lemma ReferenceRoundTrip(r: Reference)
    ensures ReferenceTo(ReferenceFrom(r)) == r
  {
    var t := ReferenceTo(ReferenceFrom(r));
    forall i | 0 <= i < |r.authors| ensures t.authors[i] == r.authors[i] {
      AuthorRoundTrip(r.authors[i]);
    }
    assert t.authors == r.authors;
  }

  /** No field changes its place on the way to the domain objects. */
  lemma AuthorFields(a: Author)
    ensures var d := AuthorFrom(a);
            && d.firstName == a.firstName && d.lastName == a.lastName
            && d.email == a.email && d.affiliation == a.affiliation && d.orcid == a.orcid
  {
    NameOfAuthorFrom(a);
  }

  lemma SectionFields(s: Section)
    ensures var d := SectionFrom(s);
            && d.title == d.heading == s.heading && d.level == s.level
            && |d.content| == |s.content| && |d.subsections| == |s.subsections|
            && (forall i :: 0 <= i < |s.subsections| ==> d.subsections[i] == SectionFrom(s.subsections[i]))
            && forall i :: 0 <= i < |s.content| ==>
                 && d.content[i].text == s.content[i].text && d.content[i].style == s.content[i].style
                 && d.content[i].alignment == s.content[i].alignment
                 && d.content[i].indent == s.content[i].indent && d.content[i].bullet == s.content[i].bullet
  {
  }

  lemma ReferenceFields(r: Reference)
    ensures var d := ReferenceFrom(r);
            && |d.authors| == |r.authors| && (forall i :: 0 <= i < |r.authors| ==> d.authors[i] == AuthorFrom(r.authors[i]))
            && d.title == r.title && d.year == r.year && d.journal == r.journal && d.bookTitle == r.bookTitle
            && d.publisher == r.publisher && d.volume == r.volume && d.issue == r.issue && d.pages == r.pages
            && d.doi == r.doi && d.url == r.url && d.isbn == r.isbn && d.id == None && d.rawText == None
  {
  }

  lemma ManuscriptFields(m: Manuscript)
    ensures var d := ManuscriptFrom(m);
            && d.title == m.title && d.abstract_ == m.abstract_ && d.keywords == m.keywords
            && |d.authors| == |m.authors| && (forall i :: 0 <= i < |m.authors| ==> d.authors[i] == AuthorFrom(m.authors[i]))
            && |d.sections| == |m.sections| && (forall i :: 0 <= i < |m.sections| ==> d.sections[i] == SectionFrom(m.sections[i]))
            && |d.references| == |m.references|
            && (forall i :: 0 <= i < |m.references| ==> d.references[i] == ReferenceFrom(m.references[i]))
            && d.acknowledgments == m.acknowledgments && d.fundingStatement == m.fundingStatement
            && d.conflictOfInterest == m.conflictOfInterest
            && d.metadata == map["acknowledgments" := m.acknowledgments, "funding_statement" := m.fundingStatement,
                                 "conflict_of_interest" := m.conflictOfInterest]
            && (d.correspondingAuthor.Some? <==> m.correspondingAuthor.Some?)
            && (m.correspondingAuthor.Some? ==> d.correspondingAuthor.value == AuthorFrom(m.correspondingAuthor.value))
  {
  }

  /** Heading and title stand in for each other; where they differ the heading counts. */
  lemma HeadingOrTitle(title: string, heading: string, level: int, content: seq<DomainParagraph>, subsections: seq<DomainSection>)
    ensures var s := SectionTo(MakeSection(title, heading, level, content, subsections));
            && (heading != "" ==> s.heading == heading)
            && (heading == "" ==> s.heading == title)
  {
  }

  /** The three declarations are kept in the metadata as well: a domain manuscript that loses the
      fields still gives the same API manuscript. */
  lemma MetadataSuffices(m: Manuscript)
    ensures ManuscriptTo(ManuscriptFrom(m).(acknowledgments := None, fundingStatement := None, conflictOfInterest := None)) == m
  {
    ManuscriptRoundTrip(m);
    var d := ManuscriptFrom(m);
    var e := d.(acknowledgments := None, fundingStatement := None, conflictOfInterest := None);
    assert ManuscriptTo(e).acknowledgments == m.acknowledgments;
    assert ManuscriptTo(e).fundingStatement == m.fundingStatement;
    assert ManuscriptTo(e).conflictOfInterest == m.conflictOfInterest;
  }

  /** Every API manuscript survives the way to the domain object and back. */
  lemma ManuscriptRoundTrip(m: Manuscript)
    ensures ManuscriptTo(ManuscriptFrom(m)) == m
  {
    var t := ManuscriptTo(ManuscriptFrom(m));
    assert t.authors == m.authors by {
      forall i | 0 <= i < |m.authors| ensures t.authors[i] == m.authors[i] {
        AuthorRoundTrip(m.authors[i]);
      }
    }
    assert t.sections == m.sections by {
      forall i | 0 <= i < |m.sections| ensures t.sections[i] == m.sections[i] {
        SectionRoundTrip(m.sections[i]);
      }
    }
    assert t.references == m.references by {
      forall i | 0 <= i < |m.references| ensures t.references[i] == m.references[i] {
        ReferenceRoundTrip(m.references[i]);
      }
    }
    if m.correspondingAuthor.Some? {
      AuthorRoundTrip(m.correspondingAuthor.value);
    }
  }
}
