/**
 * The shared render wrappers and the sitemap (lib.js).
 *
 * A page is rendered with the locals `{bucket, req}` merged with the handler's
 * own object; the sitemap is an XML document with one `<url>` per published
 * post and one per quiz.
 */
module Lib {
  import opened Js
  import opened Text

  /** The object a template is rendered with. */
  type Locals = map<string, JsValue>

  /** `res.render(page, locals)` */
  datatype Rendered = Rendered(page: string, locals: Locals)

  /** `render(res, req, loc, obj)`: `Object.assign({bucket, req}, obj)`, so a
      key of `obj` overrides the default of the same name. `bucket` is the
      S3_BUCKET setting and `req` the request object. */
  function Render(bucket: JsValue, req: JsValue, page: string, obj: Locals): (r: Rendered)
    ensures r.page == page
    ensures r.locals.Keys == {"bucket", "req"} + obj.Keys
    ensures forall k :: k in obj ==> r.locals[k] == obj[k]
    ensures "bucket" !in obj ==> r.locals["bucket"] == bucket
    ensures "req" !in obj ==> r.locals["req"] == req
  {
    Rendered(page, map["bucket" := bucket, "req" := req] + obj)
  }

  /** `error(res, req, msg)`: the `error` page with `{error: msg}`. */
  function Error(bucket: JsValue, req: JsValue, msg: JsValue): (r: Rendered)
    ensures r.page == "error"
    ensures r.locals == map["bucket" := bucket, "req" := req, "error" := msg]
  {
    Render(bucket, req, "error", map["error" := msg])
  }

  // ---------------------------------------------------------------------------
  // sitemap

  /** What the sitemap reads of a post or a quiz: its key, its `staging` flag
      (always absent on quizzes) and its `thumbnail`. */
  datatype Item = Item(id: string, staging: JsValue, thumbnail: JsValue)

  const Header := "<?xml version=\"1.0\" encoding=\"UTF-8\"?><urlset xmlns=\"http://www.sitemaps.org/schemas/sitemap/0.9\" xmlns:image=\"http://www.google.com/schemas/sitemap-image/1.1\">"
  const Footer := "</urlset>"

  /** The `<image:image>` element of an item, or nothing. */
  function ImageOf(thumbnail: JsValue): string
  {
    if Truthy(thumbnail) then "<image:image><image:loc>" + ToText(thumbnail) + "</image:loc></image:image>" else ""
  }

  /** The `<url>` element of an item under `https://thefishwrapper.news/<dir>/`.
      `escape` is the browser's `escape()`, taken as given. */
  function UrlOf(dir: string, escape: string -> string, item: Item): string
  {
    "<url>" + "<loc>https://thefishwrapper.news/" + dir + escape(item.id) + "</loc>" + ImageOf(item.thumbnail) + "</url>"
  }

  /** The `<url>` elements of the posts, staging ones skipped. */
  function PostUrls(posts: seq<Item>, escape: string -> string): seq<string>
  {
    if posts == [] then []
    else
      var last := posts[|posts| - 1];
      PostUrls(posts[..|posts| - 1], escape) + (if !Truthy(last.staging) then [UrlOf("posts/", escape, last)] else [])
  }

  /** The `<url>` elements of the quizzes. */
  function QuizUrls(quizzes: seq<Item>, escape: string -> string): (urls: seq<string>)
    ensures |urls| == |quizzes|
    ensures forall i :: 0 <= i < |quizzes| ==> urls[i] == UrlOf("quizzes/", escape, quizzes[i])
  {
    seq(|quizzes|, i requires 0 <= i < |quizzes| => UrlOf("quizzes/", escape, quizzes[i]))
  }

  /** Scanning one more post appends its element, unless it is in staging. */
  lemma PostUrlsStep(posts: seq<Item>, escape: string -> string, i: nat)
    requires i < |posts|
    ensures Concat(PostUrls(posts[..i + 1], escape)) ==
      Concat(PostUrls(posts[..i], escape)) + (if !Truthy(posts[i].staging) then UrlOf("posts/", escape, posts[i]) else "")
  {
    var before := PostUrls(posts[..i], escape);
    assert posts[..i + 1][..i] == posts[..i];
    if !Truthy(posts[i].staging) {
      ConcatOne(before, UrlOf("posts/", escape, posts[i]));
    } else {
      assert PostUrls(posts[..i + 1], escape) == before;
    }
  }

  /** The first loop of `sitemap`: the published posts' elements. */
  method PostsPart(posts: seq<Item>, escape: string -> string) returns (urls: string)
    ensures urls == Concat(PostUrls(posts, escape))
  {
    urls := "";
    var i := 0;
    while i < |posts|
      invariant 0 <= i <= |posts|
      invariant urls == Concat(PostUrls(posts[..i], escape))
    {
      var post := posts[i];
      PostUrlsStep(posts, escape, i);
      if !Truthy(post.staging) {
        urls := urls + UrlOf("posts/", escape, post);
      }
      i := i + 1;
    }
    assert posts[..i] == posts;
  }

  /** The second loop of `sitemap`: one element per quiz. */
  method QuizzesPart(quizzes: seq<Item>, escape: string -> string) returns (urls: string)
    ensures urls == Concat(QuizUrls(quizzes, escape))
  {
    urls := "";
    var j := 0;
    while j < |quizzes|
      invariant 0 <= j <= |quizzes|
      invariant urls == Concat(QuizUrls(quizzes[..j], escape))
    {
      var url := UrlOf("quizzes/", escape, quizzes[j]);
      assert QuizUrls(quizzes[..j + 1], escape) == QuizUrls(quizzes[..j], escape) + [url];
      ConcatOne(QuizUrls(quizzes[..j], escape), url);
      urls := urls + url;
      j := j + 1;
    }
    assert quizzes[..j] == quizzes;
  }

  /** `sitemap`, once both scans have returned: the posts' elements, then the
      quizzes', between the header and the closing tag. */
  method Sitemap(posts: seq<Item>, quizzes: seq<Item>, escape: string -> string) returns (out: string)
    ensures StartsWith(out, Header) && EndsWith(out, Footer)
    ensures out == Header + Concat(PostUrls(posts, escape) + QuizUrls(quizzes, escape)) + Footer
  {
    var forPosts := PostsPart(posts, escape);
    var forQuizzes := QuizzesPart(quizzes, escape);
    ConcatAppend(PostUrls(posts, escape), QuizUrls(quizzes, escape));
    out := Header + (forPosts + forQuizzes) + Footer;
    FramedBy(Header, forPosts + forQuizzes, Footer);
  }

  lemma FramedBy(head: string, body: string, foot: string)
    ensures StartsWith(head + body + foot, head) && EndsWith(head + body + foot, foot)
  {
    var s := head + body + foot;
    assert s[..|head|] == head;
    assert s[|s| - |foot|..] == foot;
  }

  /** The posts that are published, in scan order. */
  function Published(posts: seq<Item>): seq<Item>
  {
    if posts == [] then []
    else
      var last := posts[|posts| - 1];
      Published(posts[..|posts| - 1]) + (if !Truthy(last.staging) then [last] else [])
  }

  /** One `<url>` per published post, in scan order, and nothing for a staging post. */
  lemma {:induction false} PostUrlsArePublished(posts: seq<Item>, escape: string -> string)
    ensures |PostUrls(posts, escape)| == |Published(posts)|
    ensures forall i :: 0 <= i < |Published(posts)| ==>
      PostUrls(posts, escape)[i] == UrlOf("posts/", escape, Published(posts)[i])
    ensures forall p :: p in Published(posts) <==> p in posts && !Truthy(p.staging)
    decreases |posts|
  {
    if posts != [] {
      var front := posts[..|posts| - 1];
      PostUrlsArePublished(front, escape);
      assert forall p :: p in posts <==> p in front || p == posts[|posts| - 1];
    }
  }

  /** An item's element has an `<image:image>` exactly when its thumbnail is truthy. */
  lemma ImageIffThumbnail(dir: string, escape: string -> string, item: Item)
    ensures EndsWith(UrlOf(dir, escape, item), "</image:image></url>") <==> Truthy(item.thumbnail)
  {
    var loc := "<url>" + "<loc>https://thefishwrapper.news/" + dir + escape(item.id);
    var u := UrlOf(dir, escape, item);
    if Truthy(item.thumbnail) {
      var x := loc + "</loc>" + "<image:image><image:loc>" + ToText(item.thumbnail) + "</image:loc>";
      assert u == x + "</image:image></url>";
    } else {
      assert u == loc + "</loc></url>";
      assert u[|u| - 8] == 'c';
    }
  }

  /** Two posts, one in staging, and one quiz: the staging post has no element. */
  lemma SitemapExample(escape: string -> string)
    ensures var posts := [Item("a", Bool(false), Str("a.png")), Item("b", Bool(true), Undefined)];
            PostUrls(posts, escape) + QuizUrls([Item("q", Undefined, Undefined)], escape)
            == [UrlOf("posts/", escape, posts[0]), UrlOf("quizzes/", escape, Item("q", Undefined, Undefined))]
  {
    var posts := [Item("a", Bool(false), Str("a.png")), Item("b", Bool(true), Undefined)];
    assert posts[..1] == [posts[0]];
    assert PostUrls(posts[..1], escape) == [UrlOf("posts/", escape, posts[0])];
  }
}
