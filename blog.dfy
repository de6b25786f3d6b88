/** Blog posts and the blog index: a post's authors, the archive URL given to
    each of a post's tags, and the index page's tag-archive view with the two
    sub-routes that reach it. */
module Blog {
  import opened Python

  // ---------------------------------------------------------------------
  // BlogPage.authors

  /** A person snippet; its own fields are not part of this model. */
  datatype Person = Person(id: nat)

  /** One row linking a post to a person, in the editor's order. */
  datatype BlogPeopleRelationship = BlogPeopleRelationship(people: Person)

  /** BlogPage.authors: one person per relationship row, in row order. */
  function Authors(rels: seq<BlogPeopleRelationship>): (r: seq<Person>)
    ensures |r| == |rels|
    ensures forall i :: 0 <= i < |rels| ==> r[i] == rels[i].people
  {
    if rels == [] then [] else [rels[0].people] + Authors(rels[1..])
  }

  // ---------------------------------------------------------------------
  // BlogPage.get_tags

  /** A tag of a post. get_tags adds a url attribute to it. */
  class Tag {
    const name: string
    const slug: string
    var url: Option<string>

    constructor (name: string, slug: string)
      ensures this.name == name && this.slug == slug && url == None
    {
      this.name := name;
      this.slug := slug;
      url := None;
    }
  }

  /** The fixed path segment of the tag archive. */
  const TagsSegment: string := "tags"

  /** Each segment with its surrounding c removed, in order. */
  function StripEach(segments: seq<string>, c: char): (r: seq<string>)
    ensures |r| == |segments|
    ensures forall k :: 0 <= k < |r| ==> r[k] == Strip(segments[k], c)
  {
    if segments == [] then [] else [Strip(segments[0], c)] + StripEach(segments[1..], c)
  }

  /** '/' followed by the segments, each stripped of its surrounding slashes,
      joined by '/'. */
  function SlashJoin(segments: seq<string>): string {
    "/" + Join(StripEach(segments, '/'), '/')
  }

  /** The archive URL of a tag, from the parent page's URL, the tags segment
      and the tag's slug. */
  function TagUrl(parentUrl: string, slug: string): string {
    SlashJoin([parentUrl, TagsSegment, slug])
  }

  /** Joining three parts puts one separator between neighbours. */
  lemma JoinThree(a: string, b: string, c: string, sep: char)
    ensures Join([a, b, c], sep) == a + [sep] + b + [sep] + c
  {
    var parts := [a, b, c];
    assert parts[1..] == [b, c] && [b, c][1..] == [c];
    assert Join([c], sep) == c;
    assert Join([b, c], sep) == b + [sep] + c;
  }

  lemma StripTags()
    ensures Strip(TagsSegment, '/') == "tags"
  {
    StripMiddle([], "tags", [], '/');
    assert [] + "tags" + [] == "tags";
  }

  lemma TagUrlJoin(parentUrl: string, slug: string)
    ensures TagUrl(parentUrl, slug) == "/" + Join([Strip(parentUrl, '/'), "tags", Strip(slug, '/')], '/')
  {
    StripTags();
    assert StripEach([parentUrl, TagsSegment, slug], '/') == [Strip(parentUrl, '/'), "tags", Strip(slug, '/')];
  }

  lemma SlashJoinThree(p: string, s: string)
    ensures "/" + Join([p, "tags", s], '/') == "/" + p + "/tags/" + s
  {
    JoinThree(p, "tags", s, '/');
    assert p + ['/'] + "tags" + ['/'] + s == p + "/tags/" + s;
  }

  /** The URL is the stripped parent URL, "/tags/" and the stripped slug
      after one leading slash; inner slashes of both are kept. */
  lemma TagUrlShape(parentUrl: string, slug: string)
    ensures TagUrl(parentUrl, slug) == "/" + Strip(parentUrl, '/') + "/tags/" + Strip(slug, '/')
  {
    TagUrlJoin(parentUrl, slug);
    SlashJoinThree(Strip(parentUrl, '/'), Strip(slug, '/'));
  }

  /** A page URL "/<path>/", whose path neither starts nor ends with a slash,
      gives its tags the URL "/<path>/tags/<slug>". */
  lemma TagUrlUnderPage(path: string, slug: string)
    requires |path| > 0 && path[0] != '/' && path[|path| - 1] != '/'
    ensures TagUrl("/" + path + "/", slug) == "/" + path + "/tags/" + Strip(slug, '/')
  {
    TagUrlShape("/" + path + "/", slug);
    StripMiddle("/", path, "/", '/');
  }

  lemma TagUrlUnderBlogIndex(slug: string)
    ensures TagUrl("/blog/", slug) == "/blog/tags/" + Strip(slug, '/')
  {
    var path := "blog";
    BlogIndexText(path);
    TagUrlUnderPage(path, slug);
  }

  lemma BlogIndexText(path: string)
    requires path == "blog"
    ensures "/" + path + "/" == "/blog/"
    ensures "/" + path + "/tags/" == "/blog/tags/"
  {
    var u, v := "/" + path + "/", "/" + path + "/tags/";
    assert |u| == 6 && u[0] == '/' && u[1] == 'b' && u[2] == 'l' && u[3] == 'o' && u[4] == 'g' && u[5] == '/';
    assert |v| == 11 && v[..6] == u && v[6] == 't' && v[7] == 'a' && v[8] == 'g' && v[9] == 's' && v[10] == '/';
  }

  /** A parent URL made only of slashes, such as the site root "/", strips to
      nothing, so the URL starts with two slashes. */
  lemma TagUrlUnderRoot(parentUrl: string, slug: string)
    requires forall i :: 0 <= i < |parentUrl| ==> parentUrl[i] == '/'
    ensures TagUrl(parentUrl, slug) == "//tags/" + Strip(slug, '/')
  {
    TagUrlShape(parentUrl, slug);
  }

  /** A slug without slashes is the URL's last path segment, unchanged. */
  lemma TagUrlEndsWithSlug(parentUrl: string, slug: string)
    requires '/' !in slug
    ensures var segments := Split(TagUrl(parentUrl, slug), '/'); segments[|segments| - 1] == slug
  {
    TagUrlOfPlainSlug(parentUrl, slug);
    var p := Strip(parentUrl, '/');
    LastSlash(p, slug);
    LastSegmentOf(TagUrl(parentUrl, slug), "/" + p + "/tags", slug);
  }

  lemma TagUrlOfPlainSlug(parentUrl: string, slug: string)
    requires '/' !in slug
    ensures TagUrl(parentUrl, slug) == "/" + Strip(parentUrl, '/') + "/tags/" + slug
  {
    TagUrlShape(parentUrl, slug);
    StripFree(slug, '/');
  }

  lemma LastSegmentOf(u: string, front: string, slug: string)
    requires u == front + ['/'] + slug && '/' !in slug
    ensures var segments := Split(u, '/'); segments[|segments| - 1] == slug
  {
    SplitLast(front, slug, '/');
  }

  /** A string without c is its own strip. */
  lemma StripFree(s: string, c: char)
    requires c !in s
    ensures Strip(s, c) == s
  {
    StripMiddle([], s, [], c);
    assert [] + s + [] == s;
  }

  lemma LastSlash(p: string, slug: string)
    ensures "/" + p + "/tags/" + slug == ("/" + p + "/tags") + ['/'] + slug
  {
  }

  /** BlogPage.get_tags: each of the post's tags, in order, gets the archive
      URL built from the parent page's URL; the same tag objects are
      returned. */
  method GetTags(tags: seq<Tag>, parentUrl: string) returns (r: seq<Tag>)
    modifies set t | t in tags
    ensures r == tags
    ensures forall t :: t in tags ==> t.url == Some(TagUrl(parentUrl, t.slug))
  {
    var i := 0;
    while i < |tags|
      invariant 0 <= i <= |tags|
      invariant forall k :: 0 <= k < i ==> tags[k].url == Some(TagUrl(parentUrl, tags[k].slug))
    {
      tags[i].url := Some(TagUrl(parentUrl, tags[i].slug));
      i := i + 1;
    }
    r := tags;
  }

  // ---------------------------------------------------------------------
  // BlogIndexPage.tag_archive and its routes

  /** A character \w matches in ASCII text. */
  predicate IsWordChar(ch: char) {
    'a' <= ch <= 'z' || 'A' <= ch <= 'Z' || '0' <= ch <= '9' || ch == '_'
  }

  /** \w+ */
  predicate IsWordSlug(s: string) {
    |s| > 0 && forall i :: 0 <= i < |s| ==> IsWordChar(s[i])
  }

  /** Where a sub-path of the index page goes: one of the two tag-archive
      routes, with the captured slug if any, or neither. */
  datatype Route = NoRoute | TagArchiveRoute(tag: Option<string>)

  /** The routes ^tags/$ (no argument) and ^tags/(\w+)/$ (the slug). */
  function ResolveSubpage(path: string): Route {
    if path == "tags/" then TagArchiveRoute(None)
    else if |path| > 6 && path[..5] == "tags/" && path[|path| - 1] == '/' && IsWordSlug(path[5..|path| - 1])
    then TagArchiveRoute(Some(path[5..|path| - 1]))
    else NoRoute
  }

  /** The sub-path that reaches the tag archive with a given argument. */
  function ReverseSubpage(tag: Option<string>): string {
    if tag.None? then "tags/" else "tags/" + tag.value + "/"
  }

  /** Reversing then resolving gives back the argument, for every argument
      the routes can carry. */
  lemma ResolveReverse(tag: Option<string>)
    requires tag.Some? ==> IsWordSlug(tag.value)
    ensures ResolveSubpage(ReverseSubpage(tag)) == TagArchiveRoute(tag)
  {
    if tag.Some? {
      var path := ReverseSubpage(tag);
      assert path[..5] == "tags/";
      assert path[5..|path| - 1] == tag.value;
      assert path != "tags/" by { assert |path| > 5; }
    }
  }

  /** Every path that reaches the tag archive is the reverse of its argument,
      and a captured slug is one or more word characters. */
  lemma ReverseResolve(path: string)
    requires ResolveSubpage(path).TagArchiveRoute?
    ensures var tag := ResolveSubpage(path).tag;
      && path == ReverseSubpage(tag)
      && (tag.Some? ==> IsWordSlug(tag.value))
  {
    var tag := ResolveSubpage(path).tag;
    if tag.Some? {
      assert path == path[..5] + path[5..|path| - 1] + [path[|path| - 1]];
    }
  }

  /** A slug holding '-' or '.' (as slugified tag names often do) never
      reaches the tag archive. */
  lemma UnroutableSlug(path: string, slug: string)
    requires '-' in slug || '.' in slug
    ensures ResolveSubpage(path) != TagArchiveRoute(Some(slug))
  {
    var route := ResolveSubpage(path);
    if route.TagArchiveRoute? && route.tag.Some? {
      ReverseResolve(path);
      assert '-' !in route.tag.value && '.' !in route.tag.value;
    }
  }

  datatype MessageLevel = Info

  /** A message queued for the next page the visitor sees. */
  datatype FlashMessage = FlashMessage(level: MessageLevel, text: string)

  /** What the view answers: a redirect, with the message queued before it if
      any, or the index template rendered for one tag. */
  datatype Response =
    | Redirect(location: string, message: Option<FlashMessage>)
    | Render(template: string, title: string, tagSlug: string)

  const IndexTemplate: string := "blog/blog_index_page.html"

  function NoPostsMessage(tag: string): string {
    "There are no blog posts tagged with \"" + tag + "\""
  }

  /** BlogIndexPage.tag_archive over the tags as a map from slug to name. A
      known slug renders the index template titled with the tag's name;
      anything else redirects to the index page, with an info message only
      when the argument is a non-empty slug. */
  function TagArchive(tagNames: map<string, string>, tag: Option<string>, indexUrl: string): (r: Response)
    ensures r.Render? <==> tag.Some? && tag.value in tagNames
    ensures r.Render? ==> r == Render(IndexTemplate, "Posts tagged with: " + tagNames[tag.value], tag.value)
    ensures r.Redirect? ==> r.location == indexUrl
    ensures r.Redirect? ==> (r.message.Some? <==> Truthy(tag))
    ensures r.Redirect? && r.message.Some? ==> r.message.value == FlashMessage(Info, NoPostsMessage(tag.value))
  {
    if tag.Some? && tag.value in tagNames then
      Render(IndexTemplate, "Posts tagged with: " + tagNames[tag.value], tag.value)
    else
      Redirect(indexUrl, if Truthy(tag) then Some(FlashMessage(Info, NoPostsMessage(tag.value))) else None)
  }

  /** Through its routes, the view redirects silently exactly for the bare
      "tags/" path; a routed slug it does not know always brings the message,
      and a known one always renders. */
  lemma TagArchiveByPath(path: string, tagNames: map<string, string>, indexUrl: string)
    requires ResolveSubpage(path).TagArchiveRoute?
    ensures var r := TagArchive(tagNames, ResolveSubpage(path).tag, indexUrl);
      && (r == Redirect(indexUrl, None) <==> path == "tags/")
      && (path != "tags/" ==> (r.Render? <==> ResolveSubpage(path).tag.value in tagNames))
  {
    ReverseResolve(path);
    var tag := ResolveSubpage(path).tag;
    if tag.Some? {
      assert path != "tags/" by { assert |path| > 5; }
    }
  }
}
