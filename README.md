# The Fishwrapper, modelled in Dafny

The Fishwrapper is a satirical newspaper's web site, written as an Express
application. This project models the site's core in Dafny and proves what
that core promises:

- **The infinite timeline** (`infinite_timeline.js`). A table of reader
  submissions and a week counter. An editor selects one story per week and
  sweeps away the unselected ones.
- **Quizzes** (`quizzes.js`). The quiz form is parsed into questions,
  answers and results. Edited results are merged with the stored ones. A
  reader's answers are graded by counting the result each answer points to,
  and the result counted most often wins.
- **Posts** (`posts.js`). The post form is validated field by field, and a
  new post is keyed by the slug of its title. The home page sorts published
  posts into three category columns and joins them onto the features
  carousel. The search page builds a Solr query string, and every listing
  is cut into two columns.
- **The application file** (`index.js`). The template helpers (`blurb`,
  `caro`, `first`, `last`, `checkedIf`, `selected`, `equal`, `image`), the
  one callback every handler reports through, and the `_method` dispatch of
  the form routes.
- **The library** (`lib.js`). The render wrappers and the XML sitemap.

The files and modules:

- `js.dfy` (`Js`): the JavaScript semantics the handlers rely on. These are
  truthiness, `typeof`, `String()`, `Number()` and `parseInt` on integer
  text, `isNaN`, loose `==`, and request bodies as ordered key/value lists.
- `text.dfy` (`Text`): prefix and suffix tests, the concatenation a string
  builder performs, and the title slug.
- `sorting.dfy` (`Sorting`): a stable sort by an integer key, and the
  two-column split.
- `timeline.dfy` (`Timeline`): a class `Store` holding the timeline table
  and the week counter.
- `quizzes.dfy`, `posts.dfy`, `lib.dfy`, `app.dfy`: one module per source
  file.

The store is an in-memory map, or the list a scan returned. A week is
stored exactly as the handler received it: `setWeek` writes the form's
text unchecked, although the end-to-end test of the week form expects the
number. The model follows the code, and weeks are compared only through
`parseInt`, as the handlers compare them. Any handler that
reads the store and then writes it is a method on `Timeline.Store`. A
handler that only computes a page from what it read is a function or a
method of the items it read. Where the source loops, the model loops too:
`parseQuestions`, `grade`, `maxOfMap`, `sitemap`, `blurb`, `caro`,
`first`, `last` and the categorise-and-join loop of the home page. Each such
method is proved equal to a function, and the lemmas are stated about that
function.

## Model

| member | source | states |
|---|---|---|
| Js.TypeOf | posts.js:438 | `typeof` is 'string' exactly for strings and 'undefined' exactly for undefined |
| Js.Get | quizzes.js:159 | `body[key]` is defined exactly when `key` is among `Object.keys(body)`, and it is the value of a field with that key |
| Js.Value | posts.js:408-417 | a form value is a string exactly when its key is present, and undefined otherwise |
| Js.IntTextRoundTrip | infinite_timeline.js:107 | `parseInt(String(n)) === n` for every integer `n` |
| Js.ParseIntIsParseOfText | infinite_timeline.js:107 | `parseInt(v)` is the parse of `String(v)` for every value, a number included |
| Js.ParseIntNumberOrText | infinite_timeline.js:133 | `parseInt` gives the same integer for a number and for its decimal text |
| Js.NumberOfIntText | posts.js:412 | `Number(String(n)) === n` for every integer `n` |
| Js.LooseEqualsSymmetric | index.js:124 | loose `==` is symmetric |
| Js.LooseEqualsOnStrings | quizzes.js:208 | on two strings, loose `==` is string equality |
| Text.Slug | posts.js:125-126 | the slug has `min(20, length)` characters, and each is the title's character lower-cased, with white space replaced by '-' |
| Text.SlugIdempotent | quizzes.js:45 | a slug has at most 20 characters and no white space, and the slug of a slug is itself |
| Sorting.SortBy | posts.js:43-44 | the result is sorted by the key and is a permutation of the input |
| Sorting.SortByStable | posts.js:43-44 | the sort is stable: the items with any one key come out in the order they went in |
| Sorting.Halves | posts.js:318-319 | `left ++ center` is the list, and `left` has `min(floor(count/2), length)` items |
| Sorting.HalvesBalanced | posts.js:376-377 | split by its own length, the centre column has the same number of items as the left, or one more |
| Timeline.EditWeek | infinite_timeline.js:97-104 | the week shown is `req.query.week` when it is truthy and numeric, and the stored counter, as stored, otherwise |
| Timeline.AfterUpdate | infinite_timeline.js:132-139 | the update keeps the set of ids |
| Timeline.AfterClean | infinite_timeline.js:216-226 | the ids left after a clean are exactly the selected ones |
| Timeline.UpdateSelectsExactlyChosen | infinite_timeline.js:136-139 | in the week being edited, a story ends selected exactly when its id `===` `req.body.story`, and its content and week are kept |
| Timeline.UpdateKeepsOtherWeeks | infinite_timeline.js:132-134 | stories of other weeks are untouched |
| Timeline.UpdateWithTextIdSelectsNothing | infinite_timeline.js:137 | a story id submitted as text never equals a numeric id, so the week ends with nothing selected |
| Timeline.UpdateLeavesOneSelected | infinite_timeline.js:136-139 | after an update, at most one story of the edited week is selected |
| Timeline.UpdatePreservesOneSelected | infinite_timeline.js:127-150 | the invariant "at most one selected story per week" is preserved by update |
| Timeline.UpdateIdempotent | infinite_timeline.js:127-150 | updating twice with the same form is the same as updating once |
| Timeline.CleanKeepsExactlySelected | infinite_timeline.js:216-226 | a story survives a clean exactly when it is selected, and it survives unchanged |
| Timeline.CleanPreservesOneSelected | infinite_timeline.js:212-236 | clean preserves "at most one selected story per week" |
| Timeline.WeekTextOrNumber | infinite_timeline.js:133 | a week given as text filters the same stories as the week given as a number |
| Timeline.TextWeekActsAsNumber | infinite_timeline.js:107 | a story whose week was stored as the text of `n` (after `setWeek` from the form) is in exactly the weeks a story stored with the number `n` is in, and both parse to `n` |
| Timeline.UpdateExample | infinite_timeline.js:127-150 | selecting story 2 of week 3 selects it, unselects story 1, and leaves week 4 alone |
| Timeline.Store.constructor | infinite_timeline.js:270-278 | an empty timeline whose `TimelineWeek` counter is the given value, of whatever type |
| Timeline.MarkedAllIsUpdate | infinite_timeline.js:136-140 | when no `_selectStory` call is rejected, marking every story of the week is `AfterUpdate` |
| Timeline.SweptPreservesOneSelected | infinite_timeline.js:216-226 | deleting any set of stories keeps "at most one selected story per week" |
| Timeline.AddUnselectedPreservesOneSelected | infinite_timeline.js:63-71 | adding a story that is not selected keeps "at most one selected story per week" |
| Timeline.AfterUpdateAsWritten | infinite_timeline.js:242-265 | as written, a story of the edited week ends selected when it is the chosen one or was selected before; other weeks and the ids are kept |
| Timeline.AsWrittenRejectsUnselects | infinite_timeline.js:255-262 | the update as written is the corrected one with every unmarking call rejected |
| Timeline.DeleteSelectedKeepsOldMark | infinite_timeline.js:261 | as written, choosing story 2 of week 3 while story 1 of week 3 is selected leaves both selected, so the week has two selected stories |
| Timeline.RemoveSelectedMovesMark | infinite_timeline.js:242-265 | with a working unmark, the same update leaves only story 2 selected |
| Timeline.Store.GetWeek | infinite_timeline.js:270-278 | returns the stored week counter |
| Timeline.Store.Index | infinite_timeline.js:26-47 | the error page exactly when the query fails; otherwise each selected story exactly once, in ascending order of its stored numeric week, and nothing else |
| Timeline.Store.Create | infinite_timeline.js:60-80 | a failed `_getWeek` or put renders the error page and changes nothing; otherwise an unselected entry is added under the new id, tagged with the counter exactly as stored, and the browser goes to the timeline; "at most one selected story per week" is kept |
| Timeline.Store.ScanWeek | infinite_timeline.js:106-108 | lists exactly the stories whose `parseInt(week)` is the given week, each once |
| Timeline.Store.Edit | infinite_timeline.js:88-119 | the login page exactly when not logged in; the error page exactly when logged in and the get or the scan failed; otherwise exactly the stories whose `parseInt(week)` matches the week shown |
| Timeline.Store.SelectStory | infinite_timeline.js:242-265 | sets or removes the `selected` mark of one story, and changes nothing else |
| Timeline.Store.MarkAll | infinite_timeline.js:136-140 | one `_selectStory` call goes to each story of the list, once; each call the store accepts marks its story as `_selectStory` does, and a rejected one changes nothing |
| Timeline.Store.Update | infinite_timeline.js:127-150 | not logged in: the login page, no change; a failed scan: the error page, no change; otherwise one call per story of the week, every accepted call takes effect, the error page exactly when a call was rejected, and the table is `AfterUpdate` of the old one when none was; "at most one selected story per week" is kept whenever the timeline is shown |
| Timeline.Store.ChangeWeek | infinite_timeline.js:158-170 | the login page when not logged in; the error page when the get fails; otherwise the form shows the counter as stored |
| Timeline.Store.SetWeek | infinite_timeline.js:178-204 | when logged in and the store update succeeds, the counter becomes `req.body.week` exactly as received, text or number, unchecked; a failed update renders the error page and changes nothing; the table is untouched |
| Timeline.Store.Clean | infinite_timeline.js:212-236 | not logged in: the login page, no change; a failed scan: the error page, no change; otherwise one delete per unselected story, once each, exactly the accepted ones are removed, the error page exactly when one was rejected, and "at most one selected story per week" is kept |
| Quizzes.IdsWithMembers | quizzes.js:156 | the ids are exactly the keys with the prefix, less their first 9 characters |
| Quizzes.AnswersAmongMembers | quizzes.js:161-171 | an answer is kept exactly when its key starts with 'aContent-a', ends with the question id, and has a non-empty id and content |
| Quizzes.QuestionsOfMembers | quizzes.js:158-174 | a question is parsed exactly for each id whose 'qContent-' field is filled |
| Quizzes.ParseQuestions | quizzes.js:155-176 | the loop builds the questions of the body, in key order |
| Quizzes.QuestionsExact | quizzes.js:155-176 | a question is parsed exactly when some 'qContent-q…' key carries it |
| Quizzes.AnswersExact | quizzes.js:161-171 | an answer belongs to a question exactly when its key names the question and is filled |
| Quizzes.SuffixSharesAnswers | quizzes.js:161 | the `endsWith` test gives question 'q1' the answers of question 'qq1' too |
| Quizzes.ResultsOfMembers | quizzes.js:181-189 | a result is parsed exactly for each id whose 'rContent-' field is filled; its credit is kept only when that field is truthy |
| Quizzes.ParseResults | quizzes.js:178-191 | the loop builds the results of the body, in key order |
| Quizzes.ResultsExact | quizzes.js:178-191 | a result is parsed exactly when some 'rContent-r…' key carries it |
| Quizzes.UpdateResult | quizzes.js:233-242 | keeps the old id and extra fields, takes the new content, and takes the new credit only when it is truthy |
| Quizzes.UpdateResultIdempotent | quizzes.js:233-242 | applying an edit twice is applying it once |
| Quizzes.FirstWithId | quizzes.js:207-211 | finds the first stored result with the id, or none |
| Quizzes.MergeResults | quizzes.js:206-213 | one result per parsed result, in order, each merged with the first stored result of its id |
| Quizzes.MergeKeepsIds | quizzes.js:206-213 | a merged result keeps the parsed id and content; a result with no stored match is taken as parsed |
| Quizzes.LastQuestion | quizzes.js:257-261 | the question a key names is the last one with that `qId` |
| Quizzes.LastResult | quizzes.js:263-268 | the result an answer names is the last one with that `rId`, or none |
| Quizzes.FindQuestion | quizzes.js:257-261 | the first inner loop finds the last question whose `qId` equals the key, or none |
| Quizzes.FindResult | quizzes.js:263-268 | the second inner loop finds the last result whose `rId` equals the answer, or `undefined` |
| Quizzes.PickAll | quizzes.js:253-270 | one pick per submitted key, in key order, each pairing that key's question with its answer's result |
| Quizzes.TallyCounts | quizzes.js:271-278 | the tally has each result once, counts how often each was picked, and has exactly the results picked |
| Quizzes.TallyPicks | quizzes.js:271-278 | the counting loop builds that tally |
| Quizzes.FirstMaxIndex | quizzes.js:283-291 | the first entry with the greatest count |
| Quizzes.MaxOfMap | quizzes.js:283-291 | null for an empty map, and otherwise the first key with the greatest count |
| Quizzes.Buckets | quizzes.js:253-270 | one result bucket per submitted key |
| Quizzes.Grade | quizzes.js:244-281 | the grade is the winner of the tally |
| Quizzes.WinnerHasMostVotes | quizzes.js:244-291 | no winner exactly when nothing was answered; otherwise the winner was picked and nothing was picked more often |
| Quizzes.TieGoesToFirst | quizzes.js:286 | on a tie the result counted first wins |
| Quizzes.UnmatchedCanWin | quizzes.js:262-269 | answers naming no result are counted together, under `undefined`, and can outvote a real result |
| Quizzes.CreateQuiz | quizzes.js:40-64 | nothing happens when not logged in; a missing title or upload throws; otherwise the quiz sent to the put is keyed by the slug of its title, and the browser lands on '/quizzes', or on the error page when the put fails |
| Quizzes.IndexColumns | quizzes.js:24-34 | the quiz index columns together are the quizzes, balanced |
| Posts.Validate | posts.js:437-445 | '' exactly when `typeof param` is `type` and, for strings, the string is not empty; otherwise a message that names the value |
| Posts.ValidateField | posts.js:419-426 | a form field passes the string check exactly when it is present and not empty |
| Posts.ParseError | posts.js:418-426 | the accumulated error is empty exactly when all eight checked fields are filled |
| Posts.Parse | posts.js:406-432 | null exactly when one of the eight checked fields is missing or empty; otherwise the copied fields, `issue` as `Number(body.issue)` and `staging` as the truthiness of `body.staging` |
| Posts.CreateAsWrittenThrows | posts.js:124-127 | as written, an invalid form throws, so 'Invalid post arguments' is shown only for a missing upload |
| Posts.CreateAsWrittenEmptyForm | posts.js:124-127 | as written, an empty form with an upload throws |
| Posts.Create | posts.js:122-160 | never throws; the login page when not logged in; 'Invalid post arguments' exactly for an invalid form or a missing upload; otherwise the parsed post is stored, keyed by the slug of its title, with the upload as thumbnail, and the browser goes to '/posts/' and the slug, or to 'Could not create post' when the put fails |
| Posts.CreateAgreesWhenValid | posts.js:122-160 | the corrected `create` agrees with the code wherever the code does not throw |
| Posts.Unstaged | posts.js:42 | exactly the posts not in staging |
| Posts.InCategory | posts.js:50-57 | exactly the posts of the category |
| Posts.InCategoryStep | posts.js:51-57 | filing one more post appends it to its own column only |
| Posts.Listed | posts.js:42-44 | the published posts, newest first, a permutation of the unstaged ones |
| Posts.Markup | posts.js:58-59 | rendering replaces the content and the title with their markup; every other field (id, category, staging, thumbnail, date, author, issue, credit, style) is unchanged |
| Posts.LastPostFor | posts.js:61-66 | finds the last listed post a feature points to, or none |
| Posts.Joined | posts.js:61-66 | a feature takes the title and thumbnail of the last post that matches it, and is unchanged when none does |
| Posts.SelectedRows | posts.js:74 | exactly the selected timeline stories |
| Posts.FileAndJoin | posts.js:50-67 | the three columns are the category columns of the rendered posts, and each feature is joined with them |
| Posts.JoinedStep | posts.js:61-66 | joining one more post: it wins when it matches |
| Posts.JoinPost | posts.js:61-66 | the inner loop copies the post onto every feature that points to it |
| Posts.Index | posts.js:33-91 | the home page: category columns of the published posts, newest first; the features sorted by `index` and joined; the selected stories sorted by `Number()` of their week, as `a.week - b.week` compares them |
| Js.NumberOf | posts.js:75 | `Number(v)` is NaN exactly where `isNaN(v)` holds, and a number is itself |
| Posts.HomeWeekTextOrNumber | posts.js:75 | a week stored as the text of `n` sorts on the home page exactly where the number `n` does |
| Posts.HomeOrderExample | posts.js:74-75 | a selected story of text week '2' is shown after one of number week 1 |
| Posts.CategoriesPartition | posts.js:42-57 | a post is in a column exactly when it is published and its category is that column's |
| Posts.InCategorySorted | posts.js:50-57 | a column keeps the listing order |
| Posts.IndexErrorAsWrittenLosesError | posts.js:68-79 | as written, a failing timeline or shorts scan renders the error page with a null error |
| Posts.IndexErrorAsWrittenThrowsOnFeatures | posts.js:40-48 | as written, a failing features scan throws instead of rendering any page |
| Posts.IndexError | posts.js:35-91 | each of the four scans, the features scan included, reports its own failure on the error page; nothing throws; the first failure wins; the page is rendered only when every scan succeeded |
| Posts.IndexErrorAgrees | posts.js:35-39 | the correction changes nothing when the posts scan is the one that failed, or none did |
| Posts.SearchQuery | posts.js:365-369 | exactly the term searched in title, content and author (`title:s OR content:s OR author:s`), wrapped as `category:c AND (…)` when a category is given |
| Posts.SearchFailed | posts.js:381 | a failed search renders the error page with the same object |
| Posts.StagingColumns | posts.js:300-327 | the staging columns together are the staging posts, balanced |
| Posts.SearchColumns | posts.js:374-377 | the search columns together are the published hits, balanced |
| Posts.CategoryColumnsAsWritten | posts.js:345-354 | as written, the columns together are the listed posts |
| Posts.CategoryColumnsAsWrittenLopsided | posts.js:353-354 | as written, when at least half of the category is in staging, the right column is empty |
| Posts.CategoryColumnsAsWrittenExample | posts.js:353-354 | two posts, one in staging: one post on the left, none on the right |
| Posts.CategoryColumns | posts.js:345-354 | split by the listed count, the columns together are the listed posts, balanced |
| Lib.Render | lib.js:24-26 | the locals are `{bucket, req}` merged with `obj`, and `obj` wins on a shared key |
| Lib.Error | lib.js:20-22 | the error page with exactly `{bucket, req, error}` |
| Lib.QuizUrls | lib.js:52-60 | one `<url>` per quiz, in order |
| Lib.PostsPart | lib.js:41-51 | the first loop appends the `<url>` of each published post |
| Lib.QuizzesPart | lib.js:52-60 | the second loop appends one `<url>` per quiz |
| Lib.Sitemap | lib.js:28-67 | the document starts with the XML and urlset header, ends with `</urlset>`, and holds the posts' elements, then the quizzes' |
| Lib.FramedBy | lib.js:30-61 | a header, a body and a footer start with the header and end with the footer |
| Lib.PostUrlsArePublished | lib.js:41-51 | one `<url>` per published post, in scan order, and none for a staging post |
| Lib.ImageIffThumbnail | lib.js:46-48 | an element has an `<image:image>` exactly when its thumbnail is truthy |
| Lib.SitemapExample | lib.js:41-60 | a staging post gets no element |
| App.NextStop | index.js:74-75 | the match `exec` finds: the first stop at or after `lastIndex` |
| App.Cut | index.js:79-87 | the cut is at the first stop at or past 320, or at the last stop when every stop comes before 320 |
| App.Blurb | index.js:73-88 | the content unchanged when it has no stop; otherwise the content up to the cut, then '...' |
| App.BlurbChanges | index.js:87 | a blurb with a stop always differs from the content |
| App.BlurbExample | index.js:73-88 | 'One. Two.' is cut after 'One' |
| App.Caro | index.js:89-103 | one `carousel-inner` div with one `carousel-item` per item, in order |
| App.OnlyFirstActive | index.js:93-97 | exactly the first slide is active |
| App.First | index.js:104-112 | the defined items at indices `[0, num)` |
| App.Last | index.js:113-121 | the defined items at indices `[num, length)` |
| App.FirstThenLast | index.js:104-121 | for every `num`, `first` then `last` emit every defined item once, in order |
| App.EmittedAll | index.js:104-121 | when no item is undefined or null, every item is emitted |
| App.CheckedIf | index.js:122 | 'checked' exactly when the test is truthy, '' otherwise |
| App.Selected | index.js:123 | 'selected' exactly when the value is truthy, '' otherwise |
| App.Equal | index.js:124 | 'selected' exactly when `a == b` |
| App.EqualSymmetric | index.js:124 | `equal(a, b)` is `equal(b, a)` |
| App.EqualNumberAndText | index.js:124 | a number selects the option of its decimal text |
| App.Image | index.js:125-127 | the image when it is truthy, the placeholder otherwise; never empty |
| App.Callback | index.js:142-160 | 'render' renders once; 'cookie' with no object throws, and otherwise sets the cookie and then redirects; 'redirect' redirects; anything else does nothing |
| App.RenderLocals | index.js:145-150 | the page gets `bucket`, `req` and the site defaults, and the handler's object wins |
| App.RenderWithoutObject | index.js:246 | with no object the page gets the defaults alone |
| App.CookieFallsThrough | index.js:152-156 | after setting the cookie, 'cookie' does what 'redirect' does |
| App.SearchFailureAsWrittenSendsNothing | posts.js:381 | as written, a failed search sends no response at all |
| App.SearchFailureRendersError | posts.js:381 | corrected, a failed search renders the error page with the failure |
| App.LooseEqualsWord | index.js:208 | a word that is not a number is loosely equal only to itself |
| App.RoutesAgree | index.js:206-213 | PUT-first and POST-first dispatch agree: update exactly for 'PUT', create exactly for 'POST', nothing otherwise |
| App.ListingRoute | index.js:179-188 | search when `search` is given; else the category listing when `category` is; else the home page |

## Left out

- Storage: each DynamoDB scan, get, put, update and delete is replaced by
  the list it returns or by the in-memory table of `Timeline.Store`. The
  store calls of infinite_timeline.js, the put of `Posts.Create` and
  `Quizzes.CreateQuiz`, and the four scans of the home page
  (`Posts.IndexError`) take their outcome as a parameter: `putFails`,
  `getFails`, `scanFails`, `queryFails`, `updateFails`, the set `rejected`
  of ids whose update or delete fails, and the scan errors. The error
  value a failed call carries is modelled only in `Posts.IndexError`;
  elsewhere the model says only that the error page is shown.
- Failures of the other store calls are not modelled; their members
  cover the success path only:
  - the quiz index scan, whose `err` is never read, so a failure throws
    at `data.Items` (`Quizzes.IndexColumns`);
  - the get of `grade`, whose `err` is never read, so a failure throws at
    `data.Item` (`Quizzes.Grade`);
  - the get and update of `updateResults`, whose errors are only logged,
    and its get of a missing quiz, which throws at `data.Item.results`
    (`Quizzes.MergeResults`);
  - the per-post gets of `search`, whose `Promise.all` has no `catch`, so
    a failure sends no response (`Posts.SearchColumns`);
  - the error pages of the staging and category scans, and the login
    redirect of `staging` (`Posts.StagingColumns`,
    `Posts.CategoryColumns`).
- The order of `Promise.all` fan-outs and of scans is not modelled. The
  store methods visit the table in an unspecified order, and a rejected
  call of a fan-out does not stop the others: every other call takes
  effect, as when the store has already applied them.
- Solr (`solrPost`, `solr.search`, `solr.delete`) is not modelled:
  `Posts.SearchColumns` takes the posts the search found.
- Markdown rendering is not modelled beyond its use: it is an uninterpreted
  function (`render`, `inline`) in `Posts.Index`, and is left out of
  `grade`, `category`, `staging`, `search` and the quiz pages.
- S3 and multer uploads are not modelled: the uploaded location is an
  `Option<string>`.
- Login is a boolean `authenticated` guard; `login.js` is not part of this
  model.
- `new Date(published_on)` is a parameter `time: string -> int`. An
  unparsable date, which makes the comparator return NaN, is not modelled.
- Posts.Index: a selected story whose week `Number()` reads as NaN
  (undefined, or text such as 'two') sorts as week 0. In JavaScript the
  comparator returns NaN for it, which `sort` treats as "equal", so its
  place depends on the engine. A week whose text is a fraction ('2.5')
  also sorts as week 0, because the model has integers only.
- `Date.now()` is a parameter `id` of `Timeline.Store.Create`.
- JavaScript's `escape()` is a parameter of `Lib.Sitemap`.
- App.LooseEqualsWord: holds for the values modelled, which have no
  arrays. In JavaScript an array whose text is the word is loosely equal
  to it too (`['PUT'] == 'PUT'`).
- App.RoutesAgree: a `_method` field sent as an array (`_method[]=PUT`, or
  the field repeated, which body-parser's extended parser and multer turn
  into an array) is not modelled; JavaScript dispatches `['PUT']` as an
  update, since it is loosely equal to 'PUT'.
- Arrays and nested objects in request bodies are not modelled: a field
  value is a string, and a `Form` is a list of key/value pairs that may
  repeat a key, which `Object.keys` never yields (`Js.Get` reads the first
  one). The form parsers of `Quizzes` and `Posts.Parse` are stated over
  such lists, so their contracts also range over lists with no JavaScript
  counterpart.
- Timeline.Store.Index: the query's order on a stored week that is not a
  number (text, once `setWeek` has stored the form's value) is not
  modelled; such a story sorts as week 0. Which weeks the store's index
  accepts is not part of this model.
- Numbers are integers. Floating-point weeks, ids and `Number()` of
  fractional or exponent text are not modelled.
- Js.ParseIntText: decimal digits only. `parseInt("0x10")` is 16 in
  JavaScript; the model reads it as 0.
- Js.TextToNumber: decimal integer text only. `Number()` of hexadecimal,
  octal or binary text (`"0x10"`, `"0o7"`, `"0b1"`) and of `"Infinity"` is a
  number in JavaScript, so `isNaN` of it is false; the model gives NaN. A
  week submitted in such a form therefore differs in `Timeline.EditWeek`
  (the model falls back to the counter) and in the `parseInt` filter of
  `Timeline.Store.Edit` and `Timeline.Store.Update`.
- `toLocaleLowerCase` lower-cases only ASCII letters. Positions in
  `blurb` count Unicode scalar values, not UTF-16 code units.
- Text.Slug: counts Unicode scalar values. `substr(0, 20)` counts UTF-16
  code units, so a title with characters outside the Basic Multilingual
  Plane gives a shorter slug in JavaScript, possibly ending in half a
  surrogate pair.
- The posts `read`, `edit`, `new_post`, `update` and `destroy` handlers are
  not modelled: they only forward request fields to the store, except that
  `update` reuses `Parse`, which is modelled.
- The timeline's `new_story` and the quizzes' `new`, `show`, `edit`,
  `update` and `destroy` handlers are not modelled: they only forward
  request fields to the store.
- The S3-backed Google verification route, `/reindex`, `/robots.txt` and
  the subscriber, feature, crossword and insta-short routes are not
  modelled. The `_method` dispatch of their form routes is modelled by
  `App.RoutesAgree`.
- The home page's insta-shorts scan is passed through unchanged in the
  source, so `Posts.Front` does not carry it.
- `sitemap` error replies (`<error>…</error>`) are not modelled:
  `Lib.Sitemap` is the document built once both scans succeeded.
- Quizzes.UpdateResult: it returns a new value instead of mutating `rOld`
  in place. The aliasing between the stored result and the merged one is
  not modelled.
- Timeline.Store.Update: it takes `req.body.story` as a value and compares
  it with `===`. Its unmarking call is the corrected one, which removes
  `selected` as the test suite's 'REMOVE selected' expression does. The
  code's 'DELETE selected' is modelled only by
  `Timeline.AfterUpdateAsWritten` (see Findings).

## Findings

| source | as written | input that shows it | evidently intended | confidence | as-written member | corrected member |
|---|---|---|---|---|---|---|
| posts.js:124-127 | `post.postId` is assigned before `post` is checked for null | an empty form with an upload: `parse` returns null and `create` throws | an invalid form shows 'Invalid post arguments' | high; not executed | Posts.CreateAsWrittenEmptyForm | Posts.Create |
| posts.js:353-354 | the category page is split at half of `data.Count`, the count before staging posts are dropped | two posts of one category, one in staging: one on the left, none on the right | split at half of `posts.length`, as `search` does | high; not executed | Posts.CategoryColumnsAsWrittenExample | Posts.CategoryColumns |
| posts.js:68-79 | the timeline and shorts scan failures render `{error: error}`, the posts scan's error, which is null there | the timeline scan fails with any error `e`: the page shows a null error | render the failing scan's own error (`e`, `er`) | high; not executed | Posts.IndexErrorAsWrittenLosesError | Posts.IndexError |
| posts.js:40-48 | the features scan's `err` is never checked, and `resul.Items` is read unconditionally | the features scan fails: `resul` is undefined and reading `Items` throws, so no page is sent | render the error page with `err` | high; not executed | Posts.IndexErrorAsWrittenThrowsOnFeatures | Posts.IndexError |
| infinite_timeline.js:261 | the unmarking call sends `'DELETE selected'`, an update expression with no operand | story 1 of week 3 selected, story 2 chosen: the store rejects the unmarking of story 1, the marking of story 2 takes effect, and the week has two selected stories, with the error page shown | `'REMOVE selected'`, after which only story 2 is selected | medium; not executed; that the store rejects a `DELETE` action with no operand is assumed from DynamoDB's update-expression grammar, not shown by this source | Timeline.DeleteSelectedKeepsOldMark | Timeline.RemoveSelectedMovesMark |
| posts.js:381 | a failed search calls back with the action 'reneder', which the callback ignores | any Solr failure: no response is sent | the action 'render' | high; not executed | App.SearchFailureAsWrittenSendsNothing | App.SearchFailureRendersError |
