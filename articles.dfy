/**
 * The `Article` record of the article handler: a mutable object whose
 * fields the handler fills from the character data of the current article
 * element. `Value()` is the plain value of its fields; the operations on
 * values below say what each setter does and what a run of them adds up to.
 */
module Articles {
  import opened Common
  import opened Strings

  /** The fields of an `Article`. */
  datatype ArticleValue = ArticleValue(
    title: string,
    subtitle: string,
    abstractText: string,
    authors: seq<string>,
    publicationYear: int,
    sections: nat)

  /** The publication year of an article before any year was read. */
  const NoYear: int := -1

  /** A new `Article`: every text empty, no authors, no year, no sections. */
  const EmptyArticle := ArticleValue("", "", "", [], NoYear, 0)

  /**
   * `appendAbstract`: the first fragment replaces an empty abstract (even
   * when it is empty itself); later non-empty fragments go on a new line;
   * empty ones are dropped. Text already there is never lost.
   */
  function Appended(acc: string, fragment: string): (r: string)
    ensures |acc| <= |r| && r[..|acc|] == acc
    ensures acc == "" ==> r == fragment
    ensures fragment == "" ==> r == acc
  {
    if acc == "" then fragment
    else if fragment != "" then acc + "\n" + fragment
    else acc
  }

  /** The abstract built by appending `fragments` in order to an empty one. */
  function Abstract(fragments: seq<string>): string {
    if fragments == [] then ""
    else Appended(Abstract(fragments[..|fragments| - 1]), fragments[|fragments| - 1])
  }

  /** The non-empty fragments, in order. */
  function NonEmpty(fragments: seq<string>): (r: seq<string>)
    ensures forall i :: 0 <= i < |r| ==> r[i] != ""
  {
    if fragments == [] then []
    else
      var rest := NonEmpty(fragments[..|fragments| - 1]);
      if fragments[|fragments| - 1] == "" then rest else rest + [fragments[|fragments| - 1]]
  }

  /** The lines joined by line breaks. */
  function Lines(lines: seq<string>): string {
    if |lines| == 0 then ""
    else if |lines| == 1 then lines[0]
    else Lines(lines[..|lines| - 1]) + "\n" + lines[|lines| - 1]
  }

  /** Joining at least one non-empty line gives a non-empty text. */
  lemma {:induction false} LinesNonEmpty(lines: seq<string>)
    requires lines != [] && forall i :: 0 <= i < |lines| ==> lines[i] != ""
    ensures Lines(lines) != ""
  {
    if |lines| > 1 {
      assert |Lines(lines)| >= |lines[|lines| - 1]| > 0;
    }
  }

  /**
   * The abstract of an article is its non-empty fragments, one per line:
   * no fragment is lost and no empty line appears.
   */
  lemma {:induction false} AbstractIsLines(fragments: seq<string>)
    ensures Abstract(fragments) == Lines(NonEmpty(fragments))
  {
    if fragments != [] {
      var init, f := fragments[..|fragments| - 1], fragments[|fragments| - 1];
      AbstractIsLines(init);
      var rest := NonEmpty(init);
      if f != "" {
        if rest == [] {
          assert NonEmpty(fragments) == [f];
        } else {
          LinesNonEmpty(rest);
          var all := rest + [f];
          assert all[..|all| - 1] == rest;
        }
      }
    }
  }

  /**
   * `setPublicationYear` once the text is a number: the first year replaces
   * the no-year mark, and afterwards only an earlier year replaces the one
   * kept.
   */
  function EarlierYear(kept: int, year: int): int {
    if kept == NoYear || year < kept then year else kept
  }

  /** The year kept after reading `years` in order. */
  function KeptYear(years: seq<int>): int {
    if years == [] then NoYear else EarlierYear(KeptYear(years[..|years| - 1]), years[|years| - 1])
  }

  /**
   * The kept year is the earliest year read, provided no year read equals
   * the no-year mark.
   */
  lemma {:induction false} KeptYearIsEarliest(years: seq<int>)
    requires years != [] && NoYear !in years
    ensures KeptYear(years) in years
    ensures forall y :: y in years ==> KeptYear(years) <= y
  {
    var init, y := years[..|years| - 1], years[|years| - 1];
    assert years == init + [y];
    if init != [] {
      KeptYearIsEarliest(init);
    }
  }

  /**
   * A year equal to the no-year mark is forgotten by the next year read,
   * even when that one is later: -1 is not kept as the earliest of
   * 1999, -1, 2005.
   */
  lemma NoYearIsForgotten()
    ensures KeptYear([1999, -1, 2005]) == 2005
  {
    assert [1999, -1, 2005][..2] == [1999, -1];
    assert [1999, -1][..1] == [1999];
    assert [1999][..0] == [];
  }

  /** `getFullTitle`: the title, then `": "` and the subtitle when there is one. */
  function FullTitle(v: ArticleValue): (r: string)
    ensures |v.title| <= |r| && r[..|v.title|] == v.title
    ensures v.subtitle == "" <==> r == v.title
    ensures v.subtitle != "" ==> r[|v.title|..] == ": " + v.subtitle
  {
    v.title + (if v.subtitle == "" then "" else ": " + v.subtitle)
  }

  /** The setter a piece of article text goes to; `Other` text is ignored. */
  datatype Field = Title | Subtitle | Author | Year | AbstractPart | Other

  /** What the setter chosen by `field` does to an article. */
  function Filled(v: ArticleValue, field: Field, text: string): (Outcome, ArticleValue) {
    match field
    case Title => (Pass, v.(title := text))
    case Subtitle => (Pass, v.(subtitle := text))
    case Author => (Pass, v.(authors := v.authors + [text]))
    case Year =>
      (match ParseInt(text)
       case None => (Fail(NumberFormat), v)
       case Some(year) => (Pass, v.(publicationYear := EarlierYear(v.publicationYear, year))))
    case AbstractPart => (Pass, v.(abstractText := Appended(v.abstractText, text)))
    case Other => (Pass, v)
  }

  /**
   * Each field changes only its own part of the article: a text field is
   * overwritten, an author is added at the end, a year is only ever lowered
   * once one is set, and the abstract only grows.
   */
  lemma FilledChangesOnlyItsField(v: ArticleValue, field: Field, text: string)
    ensures var (outcome, w) := Filled(v, field, text);
      && (outcome.Fail? <==> field == Year && ParseInt(text).None?)
      && (outcome.Fail? ==> w == v)
      && w.sections == v.sections
      && (field != Title ==> w.title == v.title)
      && (field != Subtitle ==> w.subtitle == v.subtitle)
      && (field != Author ==> w.authors == v.authors)
      && (field == Author ==> w.authors == v.authors + [text])
      && (field != Year ==> w.publicationYear == v.publicationYear)
      && (v.publicationYear != NoYear ==> w.publicationYear <= v.publicationYear)
      && (field != AbstractPart ==> w.abstractText == v.abstractText)
      && |v.abstractText| <= |w.abstractText| && w.abstractText[..|v.abstractText|] == v.abstractText
  {
  }

  class Article {
    var title: string
    var subtitle: string
    var abstractText: string
    var authors: seq<string>
    var publicationYear: int
    var sections: nat

    /** The current fields as a value. */
    function Value(): ArticleValue
      reads this
    {
      ArticleValue(title, subtitle, abstractText, authors, publicationYear, sections)
    }

    /** `new Article()`. */
    constructor ()
      ensures Value() == EmptyArticle
    {
      title, subtitle, abstractText := "", "", "";
      authors := [];
      publicationYear := NoYear;
      sections := 0;
    }

    /** `setTitle`: overwrites the title. */
    method SetTitle(text: string)
      modifies this
      ensures Value() == old(Value()).(title := text)
    {
      title := text;
    }

    /** `setSubtitle`: overwrites the subtitle. */
    method SetSubtitle(text: string)
      modifies this
      ensures Value() == old(Value()).(subtitle := text)
    {
      subtitle := text;
    }

    /** `appendAbstract`. */
    method AppendAbstract(fragment: string)
      modifies this
      ensures Value() == old(Value()).(abstractText := Appended(old(abstractText), fragment))
    {
      if abstractText == "" {
        abstractText := fragment;
      } else if fragment != "" {
        abstractText := abstractText + "\n" + fragment;
      }
    }

    /** `addAuthor`: one more author, at the end. */
    method AddAuthor(author: string)
      modifies this
      ensures Value() == old(Value()).(authors := old(authors) + [author])
    {
      authors := authors + [author];
    }

    /**
     * `setPublicationYear`: parses the text first; text that is not a
     * 32-bit decimal throws and leaves the article as it was.
     */
    method SetPublicationYear(text: string) returns (outcome: Outcome)
      modifies this
      ensures ParseInt(text).None? ==> outcome == Fail(NumberFormat) && Value() == old(Value())
      ensures ParseInt(text).Some? ==>
        outcome == Pass &&
        Value() == old(Value()).(publicationYear := EarlierYear(old(publicationYear), ParseInt(text).value))
    {
      var parsed := ParseInt(text);
      if parsed.None? {
        return Fail(NumberFormat);
      }
      var year := parsed.value;
      if publicationYear == NoYear || year < publicationYear {
        publicationYear := year;
      }
      outcome := Pass;
    }

    /** `addSection`: one more section. */
    method AddSection()
      modifies this
      ensures Value() == old(Value()).(sections := old(sections) + 1)
    {
      sections := sections + 1;
    }

    /** Calls the setter chosen by `field` with `text`. */
    method Fill(field: Field, text: string) returns (outcome: Outcome)
      modifies this
      ensures (outcome, Value()) == Filled(old(Value()), field, text)
    {
      outcome := Pass;
      match field
      case Title => SetTitle(text);
      case Subtitle => SetSubtitle(text);
      case Author => AddAuthor(text);
      case Year => outcome := SetPublicationYear(text);
      case AbstractPart => AppendAbstract(text);
      case Other =>
    }
  }
}
