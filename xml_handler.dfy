/**
 * The article handler (`XMLContentHandler`): a SAX content and lexical
 * handler that keeps the stack of open elements, builds one `Article` per
 * `article` element from the character data found at fixed paths below it,
 * and keeps the longest namespace URI seen and the number of comments.
 * Every path is taken relative to the `articles` root.
 */
module XmlHandler {
  import opened Common
  import opened Strings
  import opened Paths
  import opened Articles
  import opened Selection

  const Root := "articles"
  const ArticleTag := "article"
  const SectionPath := "article.body.sec"
  const TitlePath := "article.front.article-meta.title-group.article-title"
  const SubtitlePath := "article.front.article-meta.title-group.subtitle"
  const GroupSurnamePath := "article.front.article-meta.contrib-group.contrib.name.surname"
  const SurnamePath := "article.front.article-meta.contrib.name.surname"
  const YearPath := "article.front.article-meta.pub-date.year"
  const AbstractPrefix := "article.front.article-meta.abstract"

  /**
   * `getRelativePath` on the dotted path of the open elements: the part
   * after a leading `articles.`, `..` for the root itself, and any other
   * path unchanged.
   */
  function Relative(path: string): (r: string)
    ensures path == Root ==> r == ".."
    ensures path != Root ==> r == path || path == "articles." + r
  {
    if StartsWith(path, "articles.") then path[9..]
    else if path == Root then ".."
    else path
  }

  /** Below the `articles` root, the relative path is the path of the elements under it. */
  lemma RelativeUnderRoot(rest: seq<string>)
    ensures Relative(Join([Root] + rest)) == if rest == [] then ".." else Join(rest)
  {
    var route := [Root] + rest;
    if rest == [] {
      assert Join(route) == Root;
    } else {
      JoinSplit(route, 1);
      assert route[..1] == [Root] && route[1..] == rest;
      assert StartsWith(Join(route), "articles.");
    }
  }

  /** In a document whose root is not `articles`, the relative path is the whole path. */
  lemma RelativeOutsideRoot(route: seq<string>)
    requires route != [] && DotFree(route) && route[0] != Root
    ensures Relative(Join(route)) == Join(route)
  {
    FirstNameOfPath(route);
    RootOfArticlesPath(route);
  }

  /** Only a path whose first name is `articles` starts with `articles.`. */
  lemma RootOfArticlesPath(route: seq<string>)
    requires route != [] && DotFree(route)
    ensures StartsWith(Join(route), "articles.") ==> route[0] == Root
  {
    var s := Join(route);
    if StartsWith(s, "articles.") {
      assert s[..8] == Root && s[8] == '.';
      FirstDotAt(s, 8);
      FirstNameOfPath(route);
    }
  }

  /** The element on top of `route` is an article: its relative path is `article`. */
  ghost predicate OpensArticle(route: seq<string>) {
    Relative(Join(route)) == ArticleTag
  }

  /** How many of the open elements are articles. */
  ghost function OpenArticles(route: seq<string>): nat {
    if route == [] then 0
    else OpenArticles(route[..|route| - 1]) + (if OpensArticle(route) then 1 else 0)
  }

  /** A path whose relative path is `article` is `article` or `articles.article`. */
  lemma ArticlePaths(path: string)
    requires Relative(path) == ArticleTag
    ensures path == "article" || path == "articles.article"
  {
    if StartsWith(path, "articles.") {
      assert path == path[..9] + path[9..];
    }
  }

  /** No element below an article is itself an article. */
  lemma {:induction false} NoArticleBelow(route: seq<string>, k: nat)
    requires OpensArticle(route) && k < |route|
    ensures OpenArticles(route[..k]) == 0
  {
    if k > 0 {
      assert route[..k][..k - 1] == route[..k - 1];
      NoArticleBelow(route, k - 1);
      var whole, lower := Join(route), Join(route[..k]);
      JoinSplit(route, k);
      ArticlePaths(whole);
      assert |lower| < |whole| && whole[|lower|] == '.';
      assert lower != "article";
      if OpensArticle(route[..k]) {
        ArticlePaths(lower);
        assert false;
      }
    }
  }

  /** Articles do not nest: at most one open element is an article. */
  lemma {:induction false} AtMostOneArticle(route: seq<string>)
    ensures OpenArticles(route) <= 1
  {
    if route != [] {
      var n := |route|;
      var init := route[..n - 1];
      AtMostOneArticle(init);
      var top := OpensArticle(route);
      assert OpenArticles(route) == OpenArticles(init) + (if top then 1 else 0);
      if top {
        NoArticleBelow(route, n - 1);
      }
    }
  }

  /** Leaving the top element closes one article exactly when the top is one. */
  lemma LeaveArticle(route: seq<string>)
    requires route != []
    ensures OpenArticles(route[..|route| - 1]) + (if OpensArticle(route) then 1 else 0) == OpenArticles(route)
  {
  }

  /** Entering an element opens one article exactly when the new top is one. */
  lemma EnterArticle(route: seq<string>, name: string)
    ensures OpenArticles(route + [name]) == OpenArticles(route) + (if OpensArticle(route + [name]) then 1 else 0)
  {
    assert (route + [name])[..|route|] == route;
  }

  /** `startPrefixMapping` and the namespace test of `startElement`: a strictly longer URI replaces the longest one. */
  function Longer(longest: string, uri: string): string {
    if Utf16Length(longest) < Utf16Length(uri) then uri else longest
  }

  /** The longest namespace after the URIs `uris`, starting from none. */
  function LongestOf(uris: seq<string>): string {
    if uris == [] then "" else Longer(LongestOf(uris[..|uris| - 1]), uris[|uris| - 1])
  }

  function Lengths(texts: seq<string>): (r: seq<int>)
    ensures |r| == |texts|
    ensures forall i :: 0 <= i < |texts| ==> r[i] == Utf16Length(texts[i])
  {
    if texts == [] then [] else Lengths(texts[..|texts| - 1]) + [Utf16Length(texts[|texts| - 1])]
  }

  /** The longest namespace is the first of the longest URIs seen. */
  lemma {:induction false} LongestIsFirstLongest(uris: seq<string>)
    requires uris != []
    ensures LongestOf(uris) == uris[FirstMax(Lengths(uris))]
  {
    var n := |uris|;
    var init, uri := uris[..n - 1], uris[n - 1];
    if n == 1 {
      assert init == [];
    } else {
      LongestIsFirstLongest(init);
      var lengths := Lengths(uris);
      var best := FirstMax(Lengths(init));
      assert lengths[..n - 1] == Lengths(init) && lengths[..n] == lengths;
      FirstMaxStep(lengths, n - 1);
      LongerStep(LongestOf(init), uri, lengths[best], lengths[n - 1]);
      assert init[best] == uris[best];
    }
  }

  /** `Longer` keeps the URI seen first unless the new one is strictly longer. */
  lemma LongerStep(longest: string, uri: string, kept: int, length: int)
    requires kept == Utf16Length(longest) && length == Utf16Length(uri)
    ensures Longer(longest, uri) == if length > kept then uri else longest
  {
  }

  /** The `switch` of `characters`, then its test for the abstract prefix. */
  function FieldOf(path: string): (r: Field)
    ensures r == Title <==> path == TitlePath
    ensures r == Subtitle <==> path == SubtitlePath
    ensures r == Author <==> path == GroupSurnamePath || path == SurnamePath
    ensures r == Year <==> path == YearPath
    ensures r == AbstractPart <==> StartsWith(path, AbstractPrefix)
  {
    FixedPathsOutsideAbstract();
    if path == TitlePath then Title
    else if path == SubtitlePath then Subtitle
    else if path == GroupSurnamePath || path == SurnamePath then Author
    else if path == YearPath then Year
    else if StartsWith(path, AbstractPrefix) then AbstractPart
    else Other
  }

  /** None of the paths the `switch` matches lies under the abstract. */
  lemma FixedPathsOutsideAbstract()
    ensures !StartsWith(TitlePath, AbstractPrefix) && !StartsWith(SubtitlePath, AbstractPrefix)
    ensures !StartsWith(GroupSurnamePath, AbstractPrefix) && !StartsWith(SurnamePath, AbstractPrefix)
    ensures !StartsWith(YearPath, AbstractPrefix)
  {
    assert AbstractPrefix[27] == 'a';
    assert TitlePath[27] == 't' && SubtitlePath[27] == 't';
    assert GroupSurnamePath[27] == 'c' && SurnamePath[27] == 'c' && YearPath[27] == 'p';
  }

  /** The values of a list of articles. */
  ghost function ValuesOf(s: seq<Article>): (r: seq<ArticleValue>)
    reads s
    ensures |r| == |s|
    ensures forall i :: 0 <= i < |s| ==> r[i] == s[i].Value()
  {
    if s == [] then [] else ValuesOf(s[..|s| - 1]) + [s[|s| - 1].Value()]
  }

  /** The full title `endDocument` reports: that of the first article with the longest abstract, or "" for none. */
  function LongestAbstractTitle(vs: seq<ArticleValue>): string {
    if vs == [] then "" else FullTitle(vs[FirstMax(AbstractLengths(vs))])
  }

  function AbstractLengths(vs: seq<ArticleValue>): (r: seq<int>)
    ensures |r| == |vs|
    ensures forall i :: 0 <= i < |vs| ==> r[i] == Utf16Length(vs[i].abstractText)
  {
    if vs == [] then [] else AbstractLengths(vs[..|vs| - 1]) + [Utf16Length(vs[|vs| - 1].abstractText)]
  }

  /**
   * The reported title is that of an article whose abstract is at least as
   * long as every other and strictly longer than every earlier one.
   */
  lemma LongestAbstractIsFirstLongest(vs: seq<ArticleValue>, i: nat)
    requires i < |vs|
    requires forall j :: 0 <= j < |vs| ==> Utf16Length(vs[j].abstractText) <= Utf16Length(vs[i].abstractText)
    requires forall j :: 0 <= j < i ==> Utf16Length(vs[j].abstractText) < Utf16Length(vs[i].abstractText)
    ensures LongestAbstractTitle(vs) == FullTitle(vs[i])
  {
    FirstMaxUnique(AbstractLengths(vs), i);
  }

  /**
   * Lengths are counted in UTF-16 units: an abstract made of one character
   * beyond the Basic Multilingual Plane is as long as a two-letter one, and
   * on that tie the earlier article is reported.
   */
  lemma WideCharacterTies(a: ArticleValue, b: ArticleValue)
    requires a.abstractText == "\U{1D538}" && b.abstractText == "ab"
    ensures LongestAbstractTitle([a, b]) == FullTitle(a)
  {
    assert Utf16Length(a.abstractText) == 2 && Utf16Length(b.abstractText) == 2;
    LongestAbstractIsFirstLongest([a, b], 0);
  }

  /** The same tie between namespace URIs keeps the one seen first. */
  lemma WideNamespaceTies()
    ensures LongestOf(["\U{1D538}", "ab"]) == "\U{1D538}"
  {
    assert ["\U{1D538}", "ab"][..1] == ["\U{1D538}"];
    assert Utf16Length("\U{1D538}") == 2 && Utf16Length("ab") == 2;
  }

  class Handler {
    /** The open-element stack (`xmlLocator`). */
    const locator: Locator
    var longestNamespace: string
    /** The finished articles, in closing order. */
    var articles: seq<Article>
    var comments: nat
    /** The article being read (`currentArticle`), `null` outside an article. */
    var current: Article?

    /**
     * An article is being read exactly when an `article` element is open,
     * and it is not yet among the finished ones.
     */
    ghost predicate Valid()
      reads this, locator
    {
      && (current != null <==> OpenArticles(locator.position) == 1)
      && (current != null ==> current !in articles)
    }

    constructor ()
      ensures Valid() && fresh(locator)
      ensures locator.position == [] && longestNamespace == "" && articles == [] && comments == 0 && current == null
    {
      locator := new Locator();
      longestNamespace := "";
      articles := [];
      comments := 0;
      current := null;
    }

    /**
     * `startElement`: enters the element; an `article` starts a new article
     * (none is being read then, so none is lost), a section of the body is
     * counted on the current article, and a non-empty namespace URI longer
     * than the longest so far replaces it. Counting a section outside an
     * article dereferences `null`.
     */
    method StartElement(namespace: string, name: string) returns (outcome: Outcome)
      requires Valid()
      modifies this, locator, current
      ensures Valid()
      ensures locator.position == old(locator.position) + [name]
      ensures articles == old(articles) && comments == old(comments)
      ensures longestNamespace == if outcome.Pass? then Longer(old(longestNamespace), namespace) else old(longestNamespace)
      ensures var path := Relative(Join(locator.position));
        && (path == ArticleTag ==>
              outcome == Pass && old(current) == null && fresh(current) && current.Value() == EmptyArticle)
        && (path == SectionPath && old(current) == null ==> outcome == Fail(NullPointer) && current == null)
        && (path == SectionPath && old(current) != null ==>
              outcome == Pass && current == old(current) &&
              current.Value() == old(current.Value()).(sections := old(current.sections) + 1))
        && (path != ArticleTag && path != SectionPath ==>
              outcome == Pass && current == old(current) && (current != null ==> current.Value() == old(current.Value())))
    {
      locator.Push(name);
      EnterArticle(old(locator.position), name);
      AtMostOneArticle(locator.position);
      var path := Relative(locator.Path());
      if path == ArticleTag {
        current := new Article();
      } else if path == SectionPath {
        if current == null {
          return Fail(NullPointer);
        }
        current.AddSection();
      }
      if namespace != "" {
        if Utf16Length(longestNamespace) < Utf16Length(namespace) {
          longestNamespace := namespace;
        }
      }
      outcome := Pass;
    }

    /**
     * `endElement`: leaving an `article` adds the current article to the
     * finished ones (it is never `null` there) and clears it; then the
     * element is left, which throws on an empty stack.
     */
    method EndElement() returns (outcome: Outcome)
      requires Valid()
      modifies this, locator
      ensures Valid()
      ensures longestNamespace == old(longestNamespace) && comments == old(comments)
      ensures old(locator.position) == [] ==> outcome == Fail(EmptyStack) && locator.position == []
      ensures old(locator.position) != [] ==>
                outcome == Pass && locator.position == old(locator.position)[..|old(locator.position)| - 1]
      ensures OpensArticle(old(locator.position)) ==>
                old(current) != null && articles == old(articles) + [old(current)] && current == null
      ensures !OpensArticle(old(locator.position)) ==> articles == old(articles) && current == old(current)
    {
      ghost var route := locator.position;
      AtMostOneArticle(route);
      if Relative(locator.Path()) == ArticleTag {
        assert route != [] by {
          assert Join([]) == "";
        }
        LeaveArticle(route);
        articles := articles + [current];
        current := null;
      }
      outcome := locator.Pop();
      if route != [] {
        LeaveArticle(route);
      }
    }

    /**
     * `characters`: the trimmed text goes to the field its relative path
     * selects on the current article; text for a field outside an article
     * dereferences `null`, and a year that does not parse throws.
     */
    method Characters(text: string) returns (outcome: Outcome)
      requires Valid()
      modifies current
      ensures Valid()
      ensures var field := FieldOf(Relative(Join(locator.position)));
        && (field == Other ==> outcome == Pass)
        && (field != Other && current == null ==> outcome == Fail(NullPointer))
        && (current != null && field != Other ==>
              (outcome, current.Value()) == Filled(old(current.Value()), field, Trim(text)))
        && (current != null && field == Other ==> current.Value() == old(current.Value()))
    {
      var field := FieldOf(Relative(locator.Path()));
      assert field == FieldOf(Relative(Join(locator.position)));
      if field == Other {
        return Pass;
      }
      if current == null {
        return Fail(NullPointer);
      }
      outcome := current.Fill(field, Trim(text));
    }

    /** `comment`: one more comment. */
    method Comment()
      modifies this
      ensures comments == old(comments) + 1
      ensures longestNamespace == old(longestNamespace) && articles == old(articles) && current == old(current)
    {
      comments := comments + 1;
    }

    /** `startPrefixMapping`: a strictly longer URI replaces the longest namespace. */
    method StartPrefixMapping(prefix: string, uri: string)
      modifies this
      ensures longestNamespace == Longer(old(longestNamespace), uri)
      ensures comments == old(comments) && articles == old(articles) && current == old(current)
    {
      if Utf16Length(longestNamespace) < Utf16Length(uri) {
        longestNamespace := uri;
      }
    }

    /**
     * The report of `endDocument`: the longest namespace, the full title of
     * the first article with the longest abstract ("" when there is none),
     * the number of comments and the number of articles.
     */
    method EndDocument() returns (namespace: string, longestAbstract: string, commentCount: nat, articleCount: nat)
      ensures namespace == longestNamespace && commentCount == comments && articleCount == |articles|
      ensures longestAbstract == LongestAbstractTitle(ValuesOf(articles))
    {
      namespace := longestNamespace;
      longestAbstract := LongestAbstract(articles);
      commentCount := comments;
      articleCount := |articles|;
    }
  }

  /** `articles.stream().max(by abstract length).map(getFullTitle).orElse("")`. */
  method LongestAbstract(articles: seq<Article>) returns (title: string)
    ensures title == LongestAbstractTitle(ValuesOf(articles))
  {
    if articles == [] {
      return "";
    }
    var best := FirstLongest(articles, AbstractLengths(ValuesOf(articles)));
    title := FullTitle(articles[best].Value());
  }

  /**
   * The index `Stream.max` keeps: the first article whose abstract is
   * longest, where `lengths` are the abstract lengths of `articles`.
   */
  method FirstLongest(articles: seq<Article>, ghost lengths: seq<int>) returns (best: nat)
    requires articles != [] && |lengths| == |articles|
    requires forall i :: 0 <= i < |articles| ==> lengths[i] == Utf16Length(articles[i].abstractText)
    ensures best == FirstMax(lengths)
  {
    var longest := Utf16Length(articles[0].abstractText);
    best := 0;
    var k := 1;
    while k < |articles|
      invariant 1 <= k <= |articles|
      invariant best == FirstMax(lengths[..k]) && longest == lengths[best]
    {
      FirstMaxStep(lengths, k);
      var length := Utf16Length(articles[k].abstractText);
      if length > longest {
        best, longest := k, length;
      }
      k := k + 1;
    }
    assert lengths[..k] == lengths;
  }
}
