/**
 * The application file (index.js): the template helpers registered with the
 * view engine, the one callback every handler reports through, and the
 * `_method` dispatch of the form routes.
 */
module App {
  import opened Js
  import opened Text
  import Lib
  import Posts

  // ---------------------------------------------------------------------------
  // blurb: cut a post's content at a sentence boundary

  /** A match of `/\.[ <â€]/` at `p`: a period followed by a space, a '<',
      or one of the two characters 'â' and '€' that a curly quote shows as
      when its UTF-8 bytes are read as Windows-1252. */
  predicate IsStop(s: string, p: int)
  {
    0 <= p && p + 1 < |s| && s[p] == '.'
    && (s[p + 1] == ' ' || s[p + 1] == '<' || s[p + 1] == '\U{00E2}' || s[p + 1] == '\U{20AC}')
  }

  /** `sentenceRegex.exec(content)` with `lastIndex` at `from`: the first stop at or after `from`. */
  function NextStop(s: string, from: nat): (r: Option<nat>)
    ensures r.Some? ==> from <= r.value && IsStop(s, r.value)
    ensures r.Some? ==> forall q :: from <= q < r.value ==> !IsStop(s, q)
    ensures r.None? ==> forall q :: from <= q < |s| ==> !IsStop(s, q)
    decreases |s| - from
  {
    if from >= |s| then None
    else if IsStop(s, from) then Some(from)
    else NextStop(s, from + 1)
  }

  /** A stop with no stop between `from` and it is the next stop from `from`. */
  lemma {:induction false} NextStopIs(s: string, from: nat, p: nat)
    requires from <= p && IsStop(s, p)
    requires forall q :: from <= q < p ==> !IsStop(s, q)
    ensures NextStop(s, from) == Some(p)
    decreases p - from
  {
    if from < p {
      assert !IsStop(s, from);
      NextStopIs(s, from + 1, p);
    }
  }

  /** The last stop below `n`. */
  function StopBefore(s: string, n: nat): (r: Option<nat>)
    ensures r.Some? ==> r.value < n && IsStop(s, r.value)
    ensures r.Some? ==> forall q :: r.value < q < n ==> !IsStop(s, q)
    ensures r.None? ==> forall q :: 0 <= q < n ==> !IsStop(s, q)
  {
    if n == 0 then None
    else if IsStop(s, n - 1) then Some(n - 1)
    else StopBefore(s, n - 1)
  }

  /** A stop with no stop after it below `n` is the last stop below `n`. */
  lemma {:induction false} StopBeforeIs(s: string, n: nat, p: nat)
    requires p < n && IsStop(s, p)
    requires forall q :: p < q < n ==> !IsStop(s, q)
    ensures StopBefore(s, n) == Some(p)
    decreases n - p
  {
    if p < n - 1 {
      assert !IsStop(s, n - 1);
      StopBeforeIs(s, n - 1, p);
    }
  }

  predicate HasStop(s: string)
  {
    NextStop(s, 0).Some?
  }

  /** Where `blurb` cuts: the first stop at or after 320, or, when every stop
      comes before 320, the last one. */
  function Cut(s: string): (p: nat)
    requires HasStop(s)
    ensures IsStop(s, p)
    ensures p >= 320 ==> forall q :: 320 <= q < p ==> !IsStop(s, q)
    ensures p < 320 ==> forall q :: p < q < |s| ==> !IsStop(s, q)
  {
    match NextStop(s, 320)
    case Some(p) => p
    case None =>
      var first := NextStop(s, 0).value;
      assert IsStop(s, first);
      StopBefore(s, |s|).value
  }

  /** `blurb(content)` */
  method Blurb(content: string) returns (out: string)
    ensures !HasStop(content) ==> out == content
    ensures HasStop(content) ==> out == content[..Cut(content)] + "..."
  {
    var stop := NextStop(content, 0);
    if stop.None? {
      return content;
    }
    var last: Option<nat> := None;
    var from: nat := 0;
    while stop.Some? && stop.value < 320
      invariant stop == NextStop(content, from)
      invariant forall q :: 0 <= q < from && IsStop(content, q) ==> q < 320
      invariant last.None? ==> from == 0 && stop.Some?
      invariant last.Some? ==> IsStop(content, last.value) && last.value < from
      invariant last.Some? ==> forall q :: last.value < q < from ==> !IsStop(content, q)
      decreases |content| - from
    {
      last := stop;
      from := stop.value + 2;
      // the character after a stop is never a period, so nothing is skipped
      assert !IsStop(content, stop.value + 1);
      stop := NextStop(content, from);
    }
    if stop.None? {
      stop := last;
      StopBeforeIs(content, |content|, last.value);
      assert NextStop(content, 320).None?;
    } else {
      NextStopIs(content, 320, stop.value);
    }
    out := content[..stop.value] + "...";
  }

  /** A blurb differs from its content exactly when the content has a stop,
      and it is then no longer than the content plus the ellipsis. */
  lemma BlurbChanges(content: string)
    requires HasStop(content)
    ensures content[..Cut(content)] + "..." != content
    ensures |content[..Cut(content)] + "..."| <= |content| + 1
  {
    var p := Cut(content);
    var b := content[..p] + "...";
    if |b| == |content| {
      assert b[p + 1] == '.' && content[p + 1] != '.';
    }
  }

  lemma BlurbExample()
    ensures HasStop("One. Two.") && Cut("One. Two.") == 3
  {
    assert IsStop("One. Two.", 3);
    NextStopIs("One. Two.", 0, 3);
    assert NextStop("One. Two.", 320).None?;
    StopBeforeIs("One. Two.", 9, 3);
  }

  // ---------------------------------------------------------------------------
  // caro, first and last: lists of items through the block template `fn`

  const CaroOpen := "<div class=\"carousel-inner\" role=\"listbox\">"
  const ActiveItem := "<div class=\"carousel-item active\">"
  const PlainItem := "<div class=\"carousel-item\">"

  /** One slide of the carousel: only the first is active. */
  function Slide(i: nat, html: string): string
  {
    (if i == 0 then ActiveItem else PlainItem) + html + "</div>"
  }

  function Slides(items: seq<JsValue>, fn: JsValue -> string): (r: seq<string>)
    ensures |r| == |items|
    ensures forall i :: 0 <= i < |items| ==> r[i] == Slide(i, fn(items[i]))
  {
    seq(|items|, i requires 0 <= i < |items| => Slide(i, fn(items[i])))
  }

  /** `caro(items, options)` with `options.fn` as `fn`. */
  method Caro(items: seq<JsValue>, fn: JsValue -> string) returns (out: string)
    ensures out == CaroOpen + Concat(Slides(items, fn)) + "</div>"
  {
    out := CaroOpen;
    var i := 0;
    while i < |items|
      invariant 0 <= i <= |items|
      invariant out == CaroOpen + Concat(Slides(items[..i], fn))
    {
      var slide := if i == 0 then ActiveItem else PlainItem;
      slide := slide + fn(items[i]);
      slide := slide + "</div>";
      assert slide == Slide(i, fn(items[i]));
      SlidesStep(items, fn, i);
      ConcatOne(Slides(items[..i], fn), slide);
      ghost var before := Concat(Slides(items[..i], fn));
      assert out + slide == CaroOpen + (before + slide);
      out := out + slide;
      i := i + 1;
    }
    assert items[..i] == items;
    out := out + "</div>";
  }

  lemma SlidesStep(items: seq<JsValue>, fn: JsValue -> string, i: nat)
    requires i < |items|
    ensures Slides(items[..i + 1], fn) == Slides(items[..i], fn) + [Slide(i, fn(items[i]))]
  {
    var a := Slides(items[..i + 1], fn);
    var b := Slides(items[..i], fn) + [Slide(i, fn(items[i]))];
    assert |a| == |b|;
    forall k | 0 <= k < |a|
      ensures a[k] == b[k]
    {
      assert items[..i + 1][k] == items[k];
    }
  }

  /** Exactly the first slide is marked active. */
  lemma OnlyFirstActive(items: seq<JsValue>, fn: JsValue -> string, i: nat)
    requires i < |items|
    ensures StartsWith(Slides(items, fn)[i], ActiveItem) <==> i == 0
  {
    var s := Slides(items, fn)[i];
    if i == 0 {
      assert s == ActiveItem + (fn(items[i]) + "</div>");
    } else {
      assert s == PlainItem + (fn(items[i]) + "</div>");
      assert s[25] == PlainItem[25] == '"';
      assert ActiveItem[25] == ' ';
    }
  }

  /** The pieces `first`/`last` emit for the indices in `[lo, hi)`: holes and
      `null`s (`context[i] != undefined` is false for both) give nothing. */
  function Emitted(context: seq<JsValue>, fn: JsValue -> string, lo: int, hi: int): seq<string>
    decreases hi - lo
  {
    if hi <= lo then []
    else
      var i := hi - 1;
      Emitted(context, fn, lo, i) + (if 0 <= i < |context| && !Nullish(context[i]) then [fn(context[i])] else [])
  }

  /** What index `i` contributes to the output: `fn(context[i])` when it is
      defined and not `null`, nothing otherwise. */
  function Piece(context: seq<JsValue>, fn: JsValue -> string, i: int): string
  {
    if 0 <= i < |context| && !Nullish(context[i]) then fn(context[i]) else ""
  }

  /** One more index appends its piece to the output. */
  lemma EmittedStep(context: seq<JsValue>, fn: JsValue -> string, lo: int, i: int)
    requires lo <= i
    ensures Concat(Emitted(context, fn, lo, i + 1)) == Concat(Emitted(context, fn, lo, i)) + Piece(context, fn, i)
  {
    if 0 <= i < |context| && !Nullish(context[i]) {
      ConcatOne(Emitted(context, fn, lo, i), fn(context[i]));
    } else {
      assert Emitted(context, fn, lo, i + 1) == Emitted(context, fn, lo, i);
    }
  }

  /** `first(context, {hash: {num}, fn})` */
  method First(context: seq<JsValue>, fn: JsValue -> string, num: int) returns (out: string)
    ensures out == Concat(Emitted(context, fn, 0, num))
  {
    out := "";
    var i := 0;
    while i < num
      invariant 0 <= i <= if num < 0 then 0 else num
      invariant out == Concat(Emitted(context, fn, 0, i))
      decreases num - i
    {
      EmittedStep(context, fn, 0, i);
      if i < |context| && !Nullish(context[i]) {
        out := out + fn(context[i]);
      }
      i := i + 1;
    }
  }

  /** `last(context, {hash: {num}, fn})` */
  method Last(context: seq<JsValue>, fn: JsValue -> string, num: int) returns (out: string)
    ensures out == Concat(Emitted(context, fn, num, |context|))
  {
    out := "";
    var i := num;
    while i < |context|
      invariant num <= i <= if |context| < num then num else |context|
      invariant out == Concat(Emitted(context, fn, num, i))
      decreases |context| - i
    {
      EmittedStep(context, fn, num, i);
      if 0 <= i && !Nullish(context[i]) {
        out := out + fn(context[i]);
      }
      i := i + 1;
    }
  }

  lemma {:induction false} EmittedSplit(context: seq<JsValue>, fn: JsValue -> string, lo: int, mid: int, hi: int)
    requires lo <= mid <= hi
    ensures Emitted(context, fn, lo, hi) == Emitted(context, fn, lo, mid) + Emitted(context, fn, mid, hi)
    decreases hi - mid
  {
    if mid < hi {
      EmittedSplit(context, fn, lo, mid, hi - 1);
    }
  }

  /** Indices outside the context emit nothing. */
  lemma {:induction false} EmittedOutside(context: seq<JsValue>, fn: JsValue -> string, lo: int, hi: int)
    requires hi <= 0 || |context| <= lo
    ensures Emitted(context, fn, lo, hi) == []
    decreases hi - lo
  {
    if lo < hi {
      EmittedOutside(context, fn, lo, hi - 1);
    }
  }

  /** Whatever `num` is, `first` and `last` together emit every defined item once, in order. */
  lemma FirstThenLast(context: seq<JsValue>, fn: JsValue -> string, num: int)
    ensures Emitted(context, fn, 0, num) + Emitted(context, fn, num, |context|) == Emitted(context, fn, 0, |context|)
  {
    if num < 0 {
      EmittedOutside(context, fn, 0, num);
      EmittedOutside(context, fn, num, 0);
      EmittedSplit(context, fn, num, 0, |context|);
    } else if num <= |context| {
      EmittedSplit(context, fn, 0, num, |context|);
    } else {
      EmittedSplit(context, fn, 0, |context|, num);
      EmittedOutside(context, fn, |context|, num);
      assert Emitted(context, fn, num, |context|) == [];
    }
  }

  /** When no item is undefined or null, every item is emitted, in order. */
  lemma {:induction false} EmittedAll(context: seq<JsValue>, fn: JsValue -> string, n: nat)
    requires n <= |context|
    requires forall i :: 0 <= i < |context| ==> !Nullish(context[i])
    ensures Emitted(context, fn, 0, n) == seq(n, i requires 0 <= i < n => fn(context[i]))
  {
    if n > 0 {
      EmittedAll(context, fn, n - 1);
    }
  }

  // ---------------------------------------------------------------------------
  // the one-line helpers

  /** `checkedIf(test)` */
  function CheckedIf(test: JsValue): (r: string)
    ensures r == "checked" <==> Truthy(test)
    ensures r == "" <==> !Truthy(test)
  {
    if Truthy(test) then "checked" else ""
  }

  /** `selected(sel)` */
  function Selected(sel: JsValue): (r: string)
    ensures r == "selected" <==> Truthy(sel)
    ensures r == "" <==> !Truthy(sel)
  {
    if Truthy(sel) then "selected" else ""
  }

  /** `equal(a, b)`: loose equality, so the number 3 selects the option "3". */
  function Equal(a: JsValue, b: JsValue): (r: string)
    ensures r == "selected" <==> LooseEquals(a, b)
    ensures r == "" <==> !LooseEquals(a, b)
  {
    if LooseEquals(a, b) then "selected" else ""
  }

  lemma EqualSymmetric(a: JsValue, b: JsValue)
    ensures Equal(a, b) == Equal(b, a)
  {
    LooseEqualsSymmetric(a, b);
  }

  lemma EqualNumberAndText(n: int)
    ensures Equal(Num(n), Str(IntToText(n))) == "selected"
  {
    NumberOfIntText(n);
    assert LooseNonBool(Num(n), Str(IntToText(n)));
  }

  const Placeholder := "https://via.placeholder.com/350?text=Image not found"

  /** `image(image)`: the image when there is one, the placeholder otherwise;
      either way the `src` it yields is never empty. */
  function Image(image: JsValue): (r: JsValue)
    ensures Truthy(r)
    ensures Truthy(image) ==> r == image
    ensures !Truthy(image) ==> r == Str(Placeholder)
  {
    if Truthy(image) then image else Str(Placeholder)
  }

  // ---------------------------------------------------------------------------
  // handlerObj.callback

  const BaseUrl := "https://thefishwrapper.news"
  const Description := "The Fishwrapper is UW's own satirical newspaper, committed to publishing all the news that's unfit to print. Irrelevant, irreverent, irresponsible."

  /** The site-wide locals beyond `{bucket, req}`; `bucket` is S3_BUCKET. */
  function SiteDefaults(bucket: JsValue): Lib.Locals
  {
    map["title" := Str("The Fishwrapper"), "type" := Str("article"), "description" := Str(Description),
        "url" := Str(BaseUrl), "ogImage" := Str(ToText(bucket) + "logo.png")]
  }

  /** What the callback does to the response. */
  datatype Effect =
    | RenderPage(page: string, locals: Lib.Locals)
    | SetCookie(name: JsValue, value: JsValue, options: JsValue)
    | Redirect(to: string)

  /** The callback's outcome: the effects in order, or the TypeError thrown
      when a 'cookie' action has no object. */
  datatype Outcome = Threw | Done(effects: seq<Effect>)

  /** `obj[key]` of an optional object. */
  function Member(obj: Lib.Locals, key: string): JsValue
  {
    if key in obj then obj[key] else Undefined
  }

  /** `callback(action, page, obj)`; None for `obj` is `undefined`. */
  function Callback(bucket: JsValue, req: JsValue, action: string, page: string, obj: Option<Lib.Locals>): (o: Outcome)
    ensures action == "render" ==> o.Done? && |o.effects| == 1 && o.effects[0].RenderPage? && o.effects[0].page == page
    ensures action == "cookie" ==> (o.Threw? <==> obj.None?)
    ensures action == "cookie" && o.Done? ==> o.effects == [
      SetCookie(Member(obj.value, "cookie"), Member(obj.value, "value"), Member(obj.value, "options")),
      Redirect(page)]
    ensures action == "redirect" ==> o == Done([Redirect(page)])
    ensures action !in {"render", "cookie", "redirect"} ==> o == Done([])
  {
    if action == "render" then
      var extra := if obj.Some? then obj.value else map[];
      Done([RenderPage(page, Lib.Render(bucket, req, page, SiteDefaults(bucket) + extra).locals)])
    else if action == "cookie" then
      if obj.None? then Threw
      else
        var o := obj.value;
        Done([SetCookie(Member(o, "cookie"), Member(o, "value"), Member(o, "options"))] + [Redirect(page)])
    else if action == "redirect" then Done([Redirect(page)])
    else Done([])
  }

  /** A rendered page has every site default, and the handler's object wins
      over each of them. */
  lemma RenderLocals(bucket: JsValue, req: JsValue, page: string, obj: Lib.Locals)
    ensures var l := Callback(bucket, req, "render", page, Some(obj)).effects[0].locals;
      && l.Keys == {"bucket", "req"} + SiteDefaults(bucket).Keys + obj.Keys
      && (forall k :: k in obj ==> l[k] == obj[k])
      && (forall k :: k in SiteDefaults(bucket) && k !in obj ==> l[k] == SiteDefaults(bucket)[k])
      && ("bucket" !in obj ==> l["bucket"] == bucket)
      && ("req" !in obj ==> l["req"] == req)
  {
  }

  /** `cb('render', page)` with no object renders the page with the defaults alone. */
  lemma RenderWithoutObject(bucket: JsValue, req: JsValue, page: string)
    ensures Callback(bucket, req, "render", page, None).effects[0].locals
         == map["bucket" := bucket, "req" := req] + SiteDefaults(bucket)
  {
  }

  /** 'cookie' falls through to 'redirect': after setting the cookie it does
      what 'redirect' does. */
  lemma CookieFallsThrough(bucket: JsValue, req: JsValue, page: string, obj: Lib.Locals)
    ensures Callback(bucket, req, "cookie", page, Some(obj)).effects[1..]
         == Callback(bucket, req, "redirect", page, Some(obj)).effects
  {
  }

  /** A handler's call as the callback receives it. */
  function Dispatch(bucket: JsValue, req: JsValue, c: Posts.Call): Outcome
  {
    Callback(bucket, req, c.action, c.page, c.obj)
  }

  /** As written, a failed search hands the callback an unknown action, so no
      response is sent at all. */
  lemma SearchFailureAsWrittenSendsNothing(bucket: JsValue, req: JsValue, e: JsValue)
    ensures Dispatch(bucket, req, Posts.SearchFailedAsWritten(e)) == Done([])
  {
    assert "reneder" !in {"render", "cookie", "redirect"};
  }

  /** Corrected, a failed search renders the error page with the failure. */
  lemma SearchFailureRendersError(bucket: JsValue, req: JsValue, e: JsValue)
    ensures var o := Dispatch(bucket, req, Posts.SearchFailed(e));
      o.Done? && |o.effects| == 1 && o.effects[0].page == "error" && o.effects[0].locals["error"] == e
  {
  }

  // ---------------------------------------------------------------------------
  // the `_method` dispatch of the form routes

  datatype Route = ToUpdate | ToCreate | NoRoute

  /** `/posts`, `/features`, `/crosswords`: PUT is checked before POST. */
  function PutFirst(verb: JsValue): Route
  {
    if LooseEquals(verb, Str("PUT")) then ToUpdate
    else if LooseEquals(verb, Str("POST")) then ToCreate
    else NoRoute
  }

  /** `/infinite_timeline`, `/quizzes`, `/insta_shorts`: POST is checked before PUT. */
  function PostFirst(verb: JsValue): Route
  {
    if LooseEquals(verb, Str("POST")) then ToCreate
    else if LooseEquals(verb, Str("PUT")) then ToUpdate
    else NoRoute
  }

  /** A word that is not a number and not "[object Object]" is loosely
      equal only to itself. */
  lemma LooseEqualsWord(v: JsValue, w: string)
    requires TextToNumber(w).None? && w != "[object Object]"
    ensures LooseEquals(v, Str(w)) <==> v == Str(w)
  {
    match v
    case Bool(b) =>
      assert BoolAsNumber(v) == Num(if b then 1 else 0);
    case Num(n) =>
      assert !LooseNonBool(Num(n), Str(w));
    case _ =>
  }

  lemma VerbsAreWords()
    ensures TextToNumber("PUT").None? && TextToNumber("POST").None?
  {
    assert !IsJsSpace('T') && !IsJsSpace('P');
    assert TrimEnd("PUT") == "PUT" && TrimStart("PUT") == "PUT";
    assert TrimEnd("POST") == "POST" && TrimStart("POST") == "POST";
    assert !IsDigit('P');
  }

  /** Both orders route alike: 'PUT' updates, 'POST' creates, and anything
      else, a missing `_method` included, does nothing. */
  lemma RoutesAgree(verb: JsValue)
    ensures PutFirst(verb) == PostFirst(verb)
    ensures PutFirst(verb) == ToUpdate <==> verb == Str("PUT")
    ensures PutFirst(verb) == ToCreate <==> verb == Str("POST")
  {
    VerbsAreWords();
    LooseEqualsWord(verb, "PUT");
    LooseEqualsWord(verb, "POST");
  }

  /** `GET /posts`: a search when `search` is given, else a category listing
      when `category` is, else the home page. */
  datatype Listing = Search | Category | Home

  function ListingRoute(search: JsValue, category: JsValue): (l: Listing)
    ensures l == Search <==> Truthy(search)
    ensures l == Category <==> !Truthy(search) && Truthy(category)
  {
    if Truthy(search) then Search else if Truthy(category) then Category else Home
  }
}
