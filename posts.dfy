/**
 * Posts (posts.js): the submitted post form is validated field by field, a
 * new post is keyed by the slug of its title, the home page sorts the
 * published posts into three category columns and joins them onto the
 * features carousel, the search page builds a Solr query string, and every
 * listing page is cut into two columns.
 */
module Posts {
  import opened Js
  import opened Text
  import opened Sorting
  import opened Timeline

  /** A post as parsed from the form and as stored. `issue` is
      `Number(body.issue)` (None is NaN); `thumbnail` is the uploaded image,
      which the form itself does not carry. */
  datatype Post = Post(
    postId: string, title: string, author: string, publishedOn: string, issue: Option<int>,
    content: string, category: string, staging: bool, credit: string, postStyle: string,
    thumbnail: Option<string>)

  /** What a handler hands to its callback: `callback(action, page, obj)`. */
  datatype Call = Call(action: string, page: string, obj: Option<map<string, JsValue>>)

  /** `validate(param, type)`: '' when `typeof param` is `type` and, for
      strings, the string is not empty; a message naming the value otherwise. */
  function Validate(param: JsValue, typ: string): (msg: string)
    ensures msg == "" <==> TypeOf(param) == typ && (typ == "string" ==> Truthy(param))
    ensures msg != "" ==> StartsWith(msg, "\"" + ToText(param) + "\"")
  {
    if TypeOf(param) != typ then "\"" + ToText(param) + "\" must be a " + typ + "\n"
    else if typ == "string" && !Truthy(param) then "\"" + ToText(param) + "\" is an empty string\n"
    else ""
  }

  /** A form field passes the string check exactly when it is present and not empty. */
  lemma ValidateField(body: Form, key: string)
    ensures Validate(Value(body, key), "string") == "" <==> Filled(Get(body, key))
  {
  }

  /** All eight fields `parse` checks with `validate(…, 'string')` are
      present and not empty. */
  predicate Complete(body: Form)
  {
    && Filled(Get(body, "postId")) && Filled(Get(body, "title")) && Filled(Get(body, "author"))
    && Filled(Get(body, "published_on")) && Filled(Get(body, "content")) && Filled(Get(body, "category"))
    && Filled(Get(body, "thumbnail_credit")) && Filled(Get(body, "postStyle"))
  }

  /** `Number(x)` */
  function NumberOf(v: JsValue): Option<int>
  {
    match v
    case Undefined => None
    case Null => Some(0)
    case Bool(b) => Some(if b then 1 else 0)
    case Num(n) => Some(n)
    case Str(s) => TextToNumber(s)
    case Obj(_) => None
  }

  /** The `error` string `parse` accumulates: empty exactly when the form is complete. */
  function ParseError(body: Form): (error: string)
    ensures error == "" <==> Complete(body)
  {
    ValidateField(body, "postId");
    ValidateField(body, "title");
    ValidateField(body, "author");
    ValidateField(body, "published_on");
    ValidateField(body, "content");
    ValidateField(body, "category");
    ValidateField(body, "thumbnail_credit");
    ValidateField(body, "postStyle");
    Validate(Value(body, "postId"), "string") + Validate(Value(body, "title"), "string")
    + Validate(Value(body, "author"), "string") + Validate(Value(body, "published_on"), "string")
    + Validate(Value(body, "content"), "string") + Validate(Value(body, "category"), "string")
    + Validate(Value(body, "thumbnail_credit"), "string") + Validate(Value(body, "postStyle"), "string")
  }

  /** `body[key]` of a field known to be filled. */
  function FieldText(body: Form, key: string): (s: string)
    requires Filled(Get(body, key))
    ensures Get(body, key) == Some(s)
  {
    Get(body, key).value
  }

  /** `parse(body)`: the post when all eight checked fields are present and
      not empty, null otherwise. */
  function Parse(body: Form): (post: Option<Post>)
    ensures post.None? <==> !Complete(body)
    ensures post.Some? ==> post.value == PostOf(body)
  {
    if ParseError(body) != "" then None else Some(PostOf(body))
  }

  /** The object `parse` builds from a complete form. */
  function PostOf(body: Form): (post: Post)
    requires Complete(body)
    ensures Get(body, "postId") == Some(post.postId)
    ensures Get(body, "title") == Some(post.title)
    ensures Get(body, "author") == Some(post.author)
    ensures Get(body, "published_on") == Some(post.publishedOn)
    ensures Get(body, "content") == Some(post.content)
    ensures Get(body, "category") == Some(post.category)
    ensures Get(body, "thumbnail_credit") == Some(post.credit)
    ensures Get(body, "postStyle") == Some(post.postStyle)
    ensures post.issue == NumberOf(Value(body, "issue"))
    ensures post.staging == Filled(Get(body, "staging"))
    ensures post.thumbnail.None?
  {
    var staging := Value(body, "staging");
    assert Truthy(staging) == Filled(Get(body, "staging"));
    Post(FieldText(body, "postId"), FieldText(body, "title"), FieldText(body, "author"), FieldText(body, "published_on"),
         NumberOf(Value(body, "issue")), FieldText(body, "content"), FieldText(body, "category"),
         Truthy(staging), FieldText(body, "thumbnail_credit"), FieldText(body, "postStyle"), None)
  }

  /** The outcome of `create`: a callback, or the TypeError thrown before one. */
  datatype Created = Threw | Called(call: Call, stored: Option<Post>)

  /** `callback('render', 'error', {error: msg})` */
  function ErrorPage(msg: JsValue): Call
  {
    Call("render", "error", Some(map["error" := msg]))
  }

  /** `create` as written: the slug is assigned to `parse`'s result before the
      null check, so an invalid form throws. `upload` is `req.file.location`
      and `putFails` whether the store call reported an error. */
  function CreateAsWritten(authenticated: bool, body: Form, upload: Option<string>, putFails: bool): (c: Created)
  {
    if !authenticated then Called(Call("redirect", "/login", None), None)
    else
      match Parse(body)
      case None => Threw
      case Some(parsed) =>
        var post := parsed.(postId := Slug(parsed.title));
        if upload.Some? then
          var item := post.(thumbnail := upload);
          if putFails then Called(ErrorPage(Str("Could not create post")), Some(item))
          else Called(Call("redirect", "/posts/" + post.postId, None), Some(item))
        else Called(ErrorPage(Str("Invalid post arguments")), None)
  }

  /** As written, any invalid form makes `create` throw, so the
      'Invalid post arguments' page is shown only for a missing upload. */
  lemma CreateAsWrittenThrows(body: Form, upload: Option<string>, putFails: bool)
    ensures Parse(body).None? ==> CreateAsWritten(true, body, upload, putFails) == Threw
    ensures CreateAsWritten(true, body, upload, putFails) == Called(ErrorPage(Str("Invalid post arguments")), None)
            ==> upload.None? && Parse(body).Some?
  {
  }

  /** An empty form with an upload: as written, `create` throws. */
  lemma CreateAsWrittenEmptyForm()
    ensures CreateAsWritten(true, [], Some("https://bucket/pic.png"), false) == Threw
  {
  }

  /** `create` with the null check before the slug: an invalid form or a
      missing upload shows 'Invalid post arguments', and a stored post is
      keyed by the slug of its title. */
  function Create(authenticated: bool, body: Form, upload: Option<string>, putFails: bool): (c: Created)
    ensures !c.Threw?
    ensures authenticated ==>
      (c == Called(ErrorPage(Str("Invalid post arguments")), None) <==> Parse(body).None? || upload.None?)
    ensures c.Called? && c.stored.Some? ==>
      && Parse(body).Some? && upload.Some?
      && c.stored.value == Parse(body).value.(postId := Slug(Parse(body).value.title), thumbnail := upload)
      && |c.stored.value.postId| <= 20
    ensures !authenticated ==> c == Called(Call("redirect", "/login", None), None)
    ensures authenticated && Parse(body).Some? && upload.Some? ==>
      var id := Slug(Parse(body).value.title);
      && c.stored == Some(Parse(body).value.(postId := id, thumbnail := upload))
      && c.call == if putFails then ErrorPage(Str("Could not create post")) else Call("redirect", "/posts/" + id, None)
  {
    if !authenticated then Called(Call("redirect", "/login", None), None)
    else
      match Parse(body)
      case None => Called(ErrorPage(Str("Invalid post arguments")), None)
      case Some(parsed) =>
        var post := parsed.(postId := Slug(parsed.title));
        if upload.Some? then
          var item := post.(thumbnail := upload);
          if putFails then Called(ErrorPage(Str("Could not create post")), Some(item))
          else Called(Call("redirect", "/posts/" + post.postId, None), Some(item))
        else Called(ErrorPage(Str("Invalid post arguments")), None)
  }

  /** The corrected `create` agrees with the code as written wherever that does not throw. */
  lemma CreateAgreesWhenValid(authenticated: bool, body: Form, upload: Option<string>, putFails: bool)
    requires !CreateAsWritten(authenticated, body, upload, putFails).Threw?
    ensures Create(authenticated, body, upload, putFails) == CreateAsWritten(authenticated, body, upload, putFails)
  {
  }

  // ---------------------------------------------------------------------------
  // The home page

  /** A feature of the carousel; the join fills in `title` and `thumbnail`. */
  datatype Feature = Feature(post: string, index: int, title: Option<string>, thumbnail: Option<string>)

  /** What `index` renders: three category columns, the features and the
      selected timeline stories. */
  datatype Front = Front(politics: seq<Post>, local: seq<Post>, current: seq<Post>,
                         features: seq<Feature>, time: seq<Row>)

  /** `items.filter(p => !p.staging)` */
  function Unstaged(items: seq<Post>): (r: seq<Post>)
    ensures |r| <= |items|
    ensures forall p :: p in r <==> p in items && !p.staging
  {
    if items == [] then []
    else
      var front := items[..|items| - 1];
      var last := items[|items| - 1];
      assert forall p :: p in items <==> p in front || p == last;
      Unstaged(front) + (if !last.staging then [last] else [])
  }

  /** The posts of one category, in listing order. */
  function InCategory(posts: seq<Post>, category: string): (r: seq<Post>)
    ensures forall p :: p in r <==> p in posts && p.category == category
  {
    if posts == [] then []
    else
      var front := posts[..|posts| - 1];
      var last := posts[|posts| - 1];
      assert forall p :: p in posts <==> p in front || p == last;
      InCategory(front, category) + (if last.category == category then [last] else [])
  }

  lemma InCategoryStep(posts: seq<Post>, p: Post, category: string)
    ensures InCategory(posts + [p], category) ==
      InCategory(posts, category) + (if p.category == category then [p] else [])
  {
    assert (posts + [p])[..|posts|] == posts;
  }

  /** The published posts, newest first; `time` reads `published_on` as a date. */
  function Listed(items: seq<Post>, time: string -> int): (posts: seq<Post>)
    ensures multiset(posts) == multiset(Unstaged(items))
    ensures SortedBy(posts, (p: Post) => -time(p.publishedOn))
  {
    SortBy(Unstaged(items), (p: Post) => -time(p.publishedOn))
  }

  /** A post as the page shows it: `render` is markdown's block renderer,
      applied to the content, and `inline` its inline one, applied to the title. */
  function Markup(p: Post, render: string -> string, inline: string -> string): (q: Post)
    ensures q.postId == p.postId && q.category == p.category && q.staging == p.staging
    ensures q.thumbnail == p.thumbnail && q.publishedOn == p.publishedOn
    ensures q.author == p.author && q.issue == p.issue && q.credit == p.credit && q.postStyle == p.postStyle
    ensures q.content == render(p.content) && q.title == inline(p.title)
  {
    p.(content := render(p.content), title := inline(p.title))
  }

  function Shown(posts: seq<Post>, render: string -> string, inline: string -> string): (r: seq<Post>)
    ensures |r| == |posts|
    ensures forall i :: 0 <= i < |posts| ==> r[i] == Markup(posts[i], render, inline)
  {
    seq(|posts|, i requires 0 <= i < |posts| => Markup(posts[i], render, inline))
  }

  /** The index of the last listed post that a feature points to. */
  function LastPostFor(posts: seq<Post>, id: string): (i: Option<nat>)
    ensures i.Some? ==> i.value < |posts| && posts[i.value].postId == id
    ensures i.Some? ==> forall k :: i.value < k < |posts| ==> posts[k].postId != id
    ensures i.None? ==> forall k :: 0 <= k < |posts| ==> posts[k].postId != id
  {
    if posts == [] then None
    else if posts[|posts| - 1].postId == id then Some(|posts| - 1)
    else LastPostFor(posts[..|posts| - 1], id)
  }

  /** A feature after the join: the title and thumbnail of the last post that
      matches it win, and a feature no post matches is left as it was. */
  function Joined(f: Feature, posts: seq<Post>): (g: Feature)
    ensures g.post == f.post && g.index == f.index
    ensures LastPostFor(posts, f.post).None? ==> g == f
    ensures LastPostFor(posts, f.post).Some? ==>
      var p := posts[LastPostFor(posts, f.post).value];
      g.title == Some(p.title) && g.thumbnail == p.thumbnail
  {
    match LastPostFor(posts, f.post)
    case None => f
    case Some(i) => f.(title := Some(posts[i].title), thumbnail := posts[i].thumbnail)
  }

  function FeatureIndex(f: Feature): int
  {
    f.index
  }

  /** `d.Items.filter(x => x.selected)` */
  function SelectedRows(rows: seq<Row>): (r: seq<Row>)
    ensures forall x :: x in r <==> x in rows && x.entry.selected
  {
    if rows == [] then []
    else
      var front := rows[..|rows| - 1];
      var last := rows[|rows| - 1];
      assert forall x :: x in rows <==> x in front || x == last;
      SelectedRows(front) + (if last.entry.selected then [last] else [])
  }

  /** The key of `time.sort((a, b) => a.week - b.week)`: subtraction reads a
      week with `Number()`, so a week stored as text sorts by its value. A week
      that is NaN is given 0 here (see README, "Left out"). */
  function HomeWeek(r: Row): int
  {
    match NumberOf(r.entry.week)
    case Some(n) => n
    case None => 0
  }

  /** A week `setWeek` stored as text takes the place of its number in the
      home page's order. */
  lemma HomeWeekTextOrNumber(r: Row, n: int)
    ensures HomeWeek(r.(entry := r.entry.(week := Str(IntToText(n))))) == n
    ensures HomeWeek(r.(entry := r.entry.(week := Num(n)))) == n
  {
    NumberOfIntText(n);
  }

  lemma SelectedPair(r1: Row, r2: Row)
    requires r1.entry.selected && r2.entry.selected
    ensures SelectedRows([r1, r2]) == [r1, r2]
  {
    assert SelectedRows([r1]) == [r1] by {
      assert [r1][..0] == [];
    }
    assert [r1, r2][..1] == [r1];
  }

  lemma SortPairDescending(r1: Row, r2: Row, key: Row -> int)
    requires key(r2) < key(r1)
    ensures SortBy([r1, r2], key) == [r2, r1]
  {
    assert SortBy([r2], key) == [r2] by {
      assert [r2][1..] == [];
    }
    assert InsertPos(r1, [r2], key) == 1 by {
      assert [r2][1..] == [];
    }
    assert [r1, r2][1..] == [r2];
    assert SortBy([r1, r2], key) == Insert(r1, [r2], key);
  }

  /** A selected story of text week '2' is shown after one of week 1. */
  lemma HomeOrderExample(r1: Row, r2: Row)
    requires r1.entry.selected && r1.entry.week == Str("2")
    requires r2.entry.selected && r2.entry.week == Num(1)
    ensures SortBy(SelectedRows([r1, r2]), HomeWeek) == [r2, r1]
  {
    assert HomeWeek(r1) == 2 by {
      NumberDigits("2");
    }
    SelectedPair(r1, r2);
    SortPairDescending(r1, r2, HomeWeek);
  }

  /** The categorise-and-join loop of `index`: each published post, newest
      first, is filed under the column its category names (if any), rendered,
      and copied onto every feature that points to it. */
  method FileAndJoin(posts: seq<Post>, sorted: seq<Feature>, render: string -> string, inline: string -> string)
    returns (pols: seq<Post>, local: seq<Post>, current: seq<Post>, feats: seq<Feature>)
    ensures pols == InCategory(Shown(posts, render, inline), "Politics")
    ensures local == InCategory(Shown(posts, render, inline), "Local")
    ensures current == InCategory(Shown(posts, render, inline), "Current Events")
    ensures |feats| == |sorted|
    ensures forall j :: 0 <= j < |sorted| ==> feats[j] == Joined(sorted[j], Shown(posts, render, inline))
  {
    var shown := Shown(posts, render, inline);
    feats := sorted;
    pols, local, current := [], [], [];
    var i := 0;
    while i < |posts|
      invariant 0 <= i <= |posts|
      invariant pols == InCategory(shown[..i], "Politics")
      invariant local == InCategory(shown[..i], "Local")
      invariant current == InCategory(shown[..i], "Current Events")
      invariant |feats| == |sorted|
      invariant forall j :: 0 <= j < |sorted| ==> feats[j] == Joined(sorted[j], shown[..i])
    {
      var post := Markup(posts[i], render, inline);
      assert shown[..i + 1] == shown[..i] + [post];
      InCategoryStep(shown[..i], post, "Politics");
      InCategoryStep(shown[..i], post, "Local");
      InCategoryStep(shown[..i], post, "Current Events");
      if post.category == "Politics" {
        pols := pols + [post];
      } else if post.category == "Local" {
        local := local + [post];
      } else if post.category == "Current Events" {
        current := current + [post];
      }
      feats := JoinPost(feats, sorted, shown[..i], post);
      i := i + 1;
    }
    assert shown[..i] == shown;
  }

  /** Joining one more post onto a feature: the post wins when it matches. */
  lemma JoinedStep(f: Feature, posts: seq<Post>, p: Post)
    ensures Joined(f, posts + [p]) ==
      if p.postId == f.post then Joined(f, posts).(title := Some(p.title), thumbnail := p.thumbnail)
      else Joined(f, posts)
  {
    assert (posts + [p])[..|posts|] == posts;
  }

  /** The inner loop of `index`: `post` is copied onto every feature that points to it. */
  method JoinPost(feats: seq<Feature>, sorted: seq<Feature>, before: seq<Post>, post: Post)
    returns (joined: seq<Feature>)
    requires |feats| == |sorted|
    requires forall k :: 0 <= k < |sorted| ==> feats[k] == Joined(sorted[k], before)
    ensures |joined| == |sorted|
    ensures forall k :: 0 <= k < |sorted| ==> joined[k] == Joined(sorted[k], before + [post])
  {
    joined := feats;
    var j := 0;
    while j < |joined|
      invariant 0 <= j <= |joined| && |joined| == |sorted|
      invariant forall k :: 0 <= k < j ==> joined[k] == Joined(sorted[k], before + [post])
      invariant forall k :: j <= k < |sorted| ==> joined[k] == Joined(sorted[k], before)
    {
      JoinedStep(sorted[j], before, post);
      if post.postId == joined[j].post {
        joined := joined[j := joined[j].(title := Some(post.title), thumbnail := post.thumbnail)];
      }
      j := j + 1;
    }
  }

  /** `index`, once the four scans have returned: `items` are the posts,
      `featItems` the features and `stories` the timeline rows. */
  method Index(items: seq<Post>, featItems: seq<Feature>, stories: seq<Row>,
               time: string -> int, render: string -> string, inline: string -> string)
    returns (page: Front)
    ensures page.politics == InCategory(Shown(Listed(items, time), render, inline), "Politics")
    ensures page.local == InCategory(Shown(Listed(items, time), render, inline), "Local")
    ensures page.current == InCategory(Shown(Listed(items, time), render, inline), "Current Events")
    ensures |page.features| == |featItems|
    ensures multiset(SortBy(featItems, FeatureIndex)) == multiset(featItems)
    ensures forall j :: 0 <= j < |featItems| ==>
      page.features[j] == Joined(SortBy(featItems, FeatureIndex)[j], Shown(Listed(items, time), render, inline))
    ensures SortedBy(page.features, FeatureIndex)
    ensures page.time == SortBy(SelectedRows(stories), HomeWeek)
  {
    var posts := Listed(items, time);
    var sorted := SortBy(featItems, FeatureIndex);
    var pols, local, current, feats := FileAndJoin(posts, sorted, render, inline);
    page := Front(pols, local, current, feats, SortBy(SelectedRows(stories), HomeWeek));
    forall a, b | 0 <= a < b < |feats|
      ensures FeatureIndex(feats[a]) <= FeatureIndex(feats[b])
    {
      assert FeatureIndex(sorted[a]) <= FeatureIndex(sorted[b]);
    }
  }

  /** Each published post is filed in at most one column, only published posts
      are filed, a post is filed in the column its category names, and its
      position follows the newest-first order. */
  lemma CategoriesPartition(items: seq<Post>, time: string -> int, render: string -> string,
                            inline: string -> string, p: Post, category: string)
    requires category in {"Politics", "Local", "Current Events"}
    ensures p in InCategory(Shown(Listed(items, time), render, inline), category) <==>
      exists q :: q in items && !q.staging && q.category == category && p == Markup(q, render, inline)
  {
    var posts := Listed(items, time);
    var shown := Shown(posts, render, inline);
    if p in shown {
      var i :| 0 <= i < |shown| && shown[i] == p;
      assert posts[i] in multiset(posts);
      assert posts[i] in multiset(Unstaged(items));
    }
    if q :| q in items && !q.staging && q.category == category && p == Markup(q, render, inline) {
      assert q in multiset(Unstaged(items));
      assert q in multiset(posts);
      var i :| 0 <= i < |posts| && posts[i] == q;
      assert shown[i] == p;
    }
  }

  /** A category column keeps the listing order: filing drops posts but never
      reorders them, so the column is sorted newest first. */
  lemma {:induction false} InCategorySorted(posts: seq<Post>, category: string, key: Post -> int)
    requires SortedBy(posts, key)
    ensures SortedBy(InCategory(posts, category), key)
    ensures forall p :: p in InCategory(posts, category) ==> p in posts
    decreases |posts|
  {
    if posts != [] {
      var front := posts[..|posts| - 1];
      var last := posts[|posts| - 1];
      assert SortedBy(front, key);
      InCategorySorted(front, category, key);
      forall p | p in InCategory(front, category)
        ensures key(p) <= key(last)
      {
        var i :| 0 <= i < |front| && front[i] == p;
        assert posts[i] == p;
      }
    }
  }

  /** How `index` stops short of rendering its page: an exception, or a
      callback with the error page. */
  datatype Stop = Throws | Fails(call: Call)

  /** The errors of the four scans of `index` (posts, features, timeline,
      shorts), in order, None for a scan that succeeded; None as the result
      is the page rendered. As written, the features scan's `err` is never
      looked at, so a failure there reads `Items` of an undefined `resul` and
      throws; the timeline and shorts scans report the posts scan's `error`,
      which is null once that scan has succeeded. */
  function IndexErrorAsWritten(postsErr: Option<JsValue>, featsErr: Option<JsValue>,
                               timeErr: Option<JsValue>, shortsErr: Option<JsValue>): (c: Option<Stop>)
  {
    if postsErr.Some? then Some(Fails(ErrorPage(postsErr.value)))
    else if featsErr.Some? then Some(Throws)
    else if timeErr.Some? then Some(Fails(ErrorPage(Null)))
    else if shortsErr.Some? then Some(Fails(ErrorPage(Null)))
    else None
  }

  /** As written, a failing timeline or shorts scan renders the error page
      with a null error, whatever the failure was. */
  lemma IndexErrorAsWrittenLosesError(e: JsValue)
    ensures IndexErrorAsWritten(None, None, Some(e), None) == Some(Fails(ErrorPage(Null)))
    ensures IndexErrorAsWritten(None, None, None, Some(e)) == Some(Fails(ErrorPage(Null)))
  {
  }

  /** As written, a failing features scan throws instead of rendering any
      page, whatever the later scans would do. */
  lemma IndexErrorAsWrittenThrowsOnFeatures(e: JsValue, timeErr: Option<JsValue>, shortsErr: Option<JsValue>)
    ensures IndexErrorAsWritten(None, Some(e), timeErr, shortsErr) == Some(Throws)
  {
  }

  /** Each failing scan reported with its own error: the first failure wins,
      nothing throws, and the page is rendered only when every scan
      succeeded. */
  function IndexError(postsErr: Option<JsValue>, featsErr: Option<JsValue>,
                      timeErr: Option<JsValue>, shortsErr: Option<JsValue>): (c: Option<Stop>)
    ensures c.None? <==> postsErr.None? && featsErr.None? && timeErr.None? && shortsErr.None?
    ensures c != Some(Throws)
    ensures postsErr.Some? ==> c == Some(Fails(ErrorPage(postsErr.value)))
    ensures postsErr.None? && featsErr.Some? ==> c == Some(Fails(ErrorPage(featsErr.value)))
    ensures postsErr.None? && featsErr.None? && timeErr.Some? ==> c == Some(Fails(ErrorPage(timeErr.value)))
    ensures postsErr.None? && featsErr.None? && timeErr.None? && shortsErr.Some? ==>
      c == Some(Fails(ErrorPage(shortsErr.value)))
  {
    if postsErr.Some? then Some(Fails(ErrorPage(postsErr.value)))
    else if featsErr.Some? then Some(Fails(ErrorPage(featsErr.value)))
    else if timeErr.Some? then Some(Fails(ErrorPage(timeErr.value)))
    else if shortsErr.Some? then Some(Fails(ErrorPage(shortsErr.value)))
    else None
  }

  /** Both agree when the only failure is the posts scan's, or there is none. */
  lemma IndexErrorAgrees(postsErr: Option<JsValue>, featsErr: Option<JsValue>,
                         timeErr: Option<JsValue>, shortsErr: Option<JsValue>)
    requires postsErr.Some? || (featsErr.None? && timeErr.None? && shortsErr.None?)
    ensures IndexError(postsErr, featsErr, timeErr, shortsErr) == IndexErrorAsWritten(postsErr, featsErr, timeErr, shortsErr)
  {
  }

  // ---------------------------------------------------------------------------
  // search and the two-column listings

  /** Solr's disjunction of one search term over several fields:
      `f1:s OR f2:s OR …`. */
  function AnyField(fields: seq<string>, s: string): string
    requires fields != []
  {
    if |fields| == 1 then fields[0] + ":" + s
    else AnyField(fields[..|fields| - 1], s) + " OR " + fields[|fields| - 1] + ":" + s
  }

  /** The Solr query `search` builds from `req.query.search` and
      `req.query.category`: the term searched in the title, the content and
      the author, restricted to the category when one is given. */
  function SearchQuery(search: JsValue, category: JsValue): (q: string)
    ensures !Truthy(category) ==> q == AnyField(["title", "content", "author"], ToText(search))
    ensures Truthy(category) ==>
      q == "category:" + ToText(category) + " AND (" + AnyField(["title", "content", "author"], ToText(search)) + ")"
  {
    var s := ToText(search);
    var terms := "title:" + s + " OR " + "content:" + s + " OR " + "author:" + s;
    assert AnyField(["title", "content", "author"], s) == terms by {
      var fs := ["title", "content", "author"];
      assert fs[..2] == ["title", "content"];
      assert fs[..2][..1] == ["title"];
      assert AnyField(["title"], s) == "title:" + s;
      assert AnyField(["title", "content"], s) == "title:" + s + " OR " + "content:" + s;
    }
    if Truthy(category) then "category:" + ToText(category) + " AND (" + terms + ")" else terms
  }

  /** What `search` hands its callback when the query fails, as written: the
      action is misspelt 'reneder'. */
  function SearchFailedAsWritten(e: JsValue): Call
  {
    Call("reneder", "error", Some(map["error" := e]))
  }

  /** The failure reported as the error page, as every other handler does. */
  function SearchFailed(e: JsValue): (c: Call)
    ensures c.action == "render" && c.page == "error"
    ensures c.obj == SearchFailedAsWritten(e).obj
  {
    ErrorPage(e)
  }

  /** `staging`: the scan returns only staging posts and counts all of them. */
  function StagingColumns(items: seq<Post>): (c: Columns<Post>)
    ensures c.left + c.center == items
    ensures |c.center| - |c.left| in {0, 1}
  {
    HalvesBalanced(items);
    Halves(items, |items|)
  }

  /** `search`: the found posts without staging ones, split by their own count. */
  function SearchColumns(found: seq<Post>): (c: Columns<Post>)
    ensures c.left + c.center == Unstaged(found)
    ensures |c.center| - |c.left| in {0, 1}
  {
    var ar := Unstaged(found);
    HalvesBalanced(ar);
    Halves(ar, |ar|)
  }

  /** `category` as written: the published posts are split at half of
      `data.Count`, the number of posts of the category before staging ones
      were dropped. */
  function CategoryColumnsAsWritten(items: seq<Post>, time: string -> int): (c: Columns<Post>)
    ensures c.left + c.center == Listed(items, time)
  {
    Halves(Listed(items, time), |items|)
  }

  /** As written, when at least half of the category is in staging the right
      column is empty: two posts, one in staging, give one post on the left
      and none on the right. */
  lemma CategoryColumnsAsWrittenLopsided(items: seq<Post>, time: string -> int)
    requires 2 * |Unstaged(items)| <= |items|
    ensures CategoryColumnsAsWritten(items, time).center == []
  {
    var posts := Listed(items, time);
    assert |posts| == |multiset(posts)| == |multiset(Unstaged(items))| == |Unstaged(items)|;
  }

  lemma CategoryColumnsAsWrittenExample(time: string -> int)
    ensures var a := Post("a", "A", "x", "d", None, "c", "Local", false, "k", "s", None);
            var b := a.(postId := "b", staging := true);
            CategoryColumnsAsWritten([a, b], time) == Columns([a], [])
  {
    var a := Post("a", "A", "x", "d", None, "c", "Local", false, "k", "s", None);
    var b := a.(postId := "b", staging := true);
    assert [a, b][..1] == [a];
    assert Unstaged([a, b]) == [a];
    assert Listed([a, b], time) == [a];
  }

  /** `category` split by the number of posts it lists, as `search` does. */
  function CategoryColumns(items: seq<Post>, time: string -> int): (c: Columns<Post>)
    ensures c.left + c.center == Listed(items, time)
    ensures |c.center| - |c.left| in {0, 1}
  {
    var posts := Listed(items, time);
    HalvesBalanced(posts);
    Halves(posts, |posts|)
  }
}
