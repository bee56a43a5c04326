/** The loops of `sanitize_manuscript` and `_sanitize_section` in
    `backend/app/core/validator_ext.py` as they run: the fields of section and paragraph objects
    are overwritten. Each method is proved to turn the value of its object into the sanitized
    value and to leave the object structure alone. */
module SanitizeInPlace {
  import opened Text
  import opened Sanitizer
  import V = SizeChecks

  class Paragraph {
    var text: string
    var style: Option<string>
    var alignment: Option<string>

    ghost function Value(): V.Paragraph
      reads this
    {
      V.Paragraph(text, style, alignment)
    }

    method Sanitize()
      modifies this
      ensures Value() == V.SanitizeParagraph(old(Value()))
    {
      text := SanitizeString(text, Some(50000));
      if style.Some? && style.value != "" && style.value !in V.ALLOWED_PARAGRAPH_STYLES {
        style := None;
      }
      if alignment.Some? && alignment.value != "" && alignment.value !in V.ALLOWED_ALIGNMENTS {
        alignment := None;
      }
    }
  }

  class Section {
    var heading: string
    var content: seq<Paragraph>
    var subsections: seq<Section>
    ghost var Repr: set<object>

    /** The section is a tree: no object occurs twice in it. */
    ghost predicate Valid()
      reads this, Repr
      ensures Valid() ==> this in Repr
      decreases Repr
    {
      && this in Repr
      && (forall i :: 0 <= i < |content| ==> content[i] in Repr)
      && (forall i, j :: 0 <= i < j < |content| ==> content[i] != content[j])
      && (forall j :: 0 <= j < |subsections| ==>
            && subsections[j] in Repr && subsections[j].Repr < Repr && this !in subsections[j].Repr
            && subsections[j].Valid())
      && (forall i, j :: 0 <= i < |content| && 0 <= j < |subsections| ==> content[i] !in subsections[j].Repr)
      && (forall i, j :: 0 <= i < j < |subsections| ==> subsections[i].Repr !! subsections[j].Repr)
    }

    ghost function Paragraphs(): (ps: seq<V.Paragraph>)
      reads this, content
      ensures |ps| == |content| && forall i :: 0 <= i < |ps| ==> ps[i] == content[i].Value()
    {
      seq(|content|, i requires 0 <= i < |content| reads this, content => content[i].Value())
    }

    ghost function Below(): (ss: seq<V.Section>)
      requires Valid()
      reads this, Repr
      ensures |ss| == |subsections| && forall j :: 0 <= j < |ss| ==> ss[j] == subsections[j].Value()
      decreases Repr, 0
    {
      seq(|subsections|, j requires 0 <= j < |subsections| && Valid() reads this, Repr => subsections[j].Value())
    }

    ghost function Value(): V.Section
      requires Valid()
      reads this, Repr
      decreases Repr, 1
    {
      V.Section(heading, Paragraphs(), Below())
    }

    method Sanitize()
      requires Valid()
      modifies Repr
      ensures Valid() && Repr == old(Repr)
      ensures content == old(content) && subsections == old(subsections)
      ensures Value() == V.SanitizeSection(old(Value()))
      decreases Repr, 1
    {
      ghost var below := Below();
      heading := SanitizeString(heading, Some(500));
      assert Below() == below;
      SanitizeContent();
      SanitizeSubsections();
    }

    method SanitizeContent()
      requires Valid()
      modifies content
      ensures Valid() && Below() == old(Below())
      ensures Paragraphs() == V.SanitizeParagraphs(old(Paragraphs()))
      decreases Repr, 0
    {
      ghost var was := Paragraphs();
      ghost var wanted := V.SanitizeParagraphs(was);
      ghost var below := Below();
      for i := 0 to |content|
        invariant Valid() && Below() == below
        invariant forall j :: 0 <= j < i ==> content[j].Value() == wanted[j]
        invariant forall j :: i <= j < |content| ==> content[j].Value() == was[j]
      {
        label Before:
        content[i].Sanitize();
        AfterParagraph@Before(i);
      }
    }

    /** Changing one paragraph disturbs neither its neighbours nor the subsections. */
    twostate lemma AfterParagraph(i: nat)
      requires old(Valid()) && i < |content| && unchanged(this)
      requires forall o :: o in old(Repr) && o != content[i] ==> unchanged(o)
      ensures Valid() && Below() == old(Below())
      ensures forall j :: 0 <= j < |content| && j != i ==> content[j].Value() == old(content[j].Value())
    {
      forall j | 0 <= j < |subsections|
        ensures subsections[j].Valid() && subsections[j].Value() == old(subsections[j].Value())
      {
        assert content[i] !in old(subsections[j].Repr);
      }
    }

    method SanitizeSubsections()
      requires Valid()
      modifies Repr
      ensures Valid() && Repr == old(Repr) && unchanged(this) && Paragraphs() == old(Paragraphs())
      ensures Below() == V.SanitizeSections(old(Below()))
      decreases Repr, 0
    {
      ghost var was := Below();
      ghost var wanted := V.SanitizeSections(was);
      ghost var paragraphs := Paragraphs();
      for i := 0 to |subsections|
        invariant unchanged(this)
        invariant Valid() && Paragraphs() == paragraphs
        invariant forall j :: 0 <= j < i ==> subsections[j].Value() == wanted[j]
        invariant forall j :: i <= j < |subsections| ==> subsections[j].Value() == was[j]
      {
        var sub := subsections[i];
        label Before:
        sub.Sanitize();
        AfterSubsection@Before(i);
      }
    }

    /** Changing one subsection tree disturbs neither its siblings nor the paragraphs. */
    twostate lemma AfterSubsection(i: nat)
      requires old(Valid()) && i < |subsections| && unchanged(this)
      requires subsections[i].Valid() && subsections[i].Repr == old(subsections[i].Repr)
      requires forall o :: o in old(Repr) && o !in old(subsections[i].Repr) ==> unchanged(o)
      ensures Valid() && Paragraphs() == old(Paragraphs())
      ensures forall j :: 0 <= j < |subsections| && j != i ==> subsections[j].Value() == old(subsections[j].Value())
    {
      forall j | 0 <= j < |subsections| && j != i
        ensures subsections[j].Valid() && subsections[j].Repr == old(subsections[j].Repr)
        ensures subsections[j].Value() == old(subsections[j].Value())
      {
        assert old(subsections[j].Repr !! subsections[i].Repr);
      }
    }
  }

  /** The section loop of `sanitize_manuscript`. */
  method SanitizeSections(sections: seq<Section>)
    requires forall i :: 0 <= i < |sections| ==> sections[i].Valid()
    requires forall i, j :: 0 <= i < j < |sections| ==> sections[i].Repr !! sections[j].Repr
    modifies set i, o | 0 <= i < |sections| && o in sections[i].Repr :: o
    ensures forall i :: 0 <= i < |sections| ==> sections[i].Valid() && sections[i].Repr == old(sections[i].Repr)
    ensures forall i :: 0 <= i < |sections| ==> sections[i].Value() == V.SanitizeSection(old(sections[i].Value()))
  {
    for i := 0 to |sections|
      invariant forall j :: 0 <= j < |sections| ==> sections[j].Valid() && sections[j].Repr == old(sections[j].Repr)
      invariant forall j :: 0 <= j < i ==> sections[j].Value() == V.SanitizeSection(old(sections[j].Value()))
      invariant forall j :: i <= j < |sections| ==> sections[j].Value() == old(sections[j].Value())
    {
      var s := sections[i];
      label Before:
      s.Sanitize();
      forall j | 0 <= j < |sections| && j != i
        ensures sections[j].Valid() && sections[j].Repr == old@Before(sections[j].Repr)
        ensures sections[j].Value() == old@Before(sections[j].Value())
      {
        assert old@Before(sections[j].Repr !! s.Repr);
      }
    }
  }

  /** The keyword loop of `sanitize_manuscript`. */
  method SanitizeKeywords(keywords: seq<string>) returns (kept: seq<string>)
    ensures kept == V.SanitizeKeywords(keywords)
  {
    kept := [];
    for i := 0 to |keywords|
      invariant kept == V.SanitizeKeywords(keywords[..i])
    {
      var k := SanitizeString(keywords[i], Some(V.MAX_KEYWORD_LENGTH));
      assert keywords[..i + 1][..i] == keywords[..i];
      if k != "" {
        kept := kept + [k];
      }
    }
    assert keywords[..|keywords|] == keywords;
  }
}
