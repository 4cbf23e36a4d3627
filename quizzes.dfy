/**
 * Quizzes (quizzes.js): the editor's flat quiz form is decoded into questions,
 * answers and results; when a quiz is edited the resubmitted results are merged
 * with the stored ones; a reader's answers are graded by tallying the result
 * each answer points to and taking the most frequent one.
 *
 * Question, answer and result ids travel in the form's keys:
 * `qContent-<qId>`, `aContent-<aId>` (an answer belongs to every question whose
 * id ends its key), `aResult-<aId>`, `rContent-<rId>` and
 * `rThumbnailCredit-<rId>`.
 */
module Quizzes {
  import opened Js
  import opened Text
  import opened Sorting

  datatype Answer = Answer(aId: string, aContent: string, aResult: Option<string>)

  datatype Question = Question(qId: string, qContent: string, answers: seq<Answer>)

  /** A quiz result. `credit` is the optional `thumbnail_credit`; `extra` holds
      whatever other fields a stored result carries. */
  datatype QuizResult = QuizResult(rId: string, rContent: string, credit: Option<string>, extra: map<string, string>)

  datatype Quiz = Quiz(
    quizId: string, title: string, author: Option<string>, blurb: Option<string>,
    thumbnail: string, credit: Option<string>, questions: seq<Question>, results: seq<QuizResult>)

  /** `s.substring(n)` */
  function Drop(s: string, n: nat): (t: string)
    ensures n <= |s| ==> t == s[n..]
    ensures |s| < n ==> t == ""
  {
    if n <= |s| then s[n..] else ""
  }

  /** The id in a key `<p><c>…` is what follows `p`: putting `p` back gives
      the key, and the id is not empty. */
  lemma IdOfKey(k: string, p: string, c: char)
    requires |p| == 9 && StartsWith(k, p + [c])
    ensures p + Drop(k, 9) == k && Drop(k, 9) != ""
  {
    assert k[..9] == (p + [c])[..9];
    assert k == k[..9] + k[9..];
  }

  /** `keys.filter(x => x.startsWith(p))` */
  function KeysWith(ks: seq<string>, p: string): (r: seq<string>)
    ensures forall k :: k in r <==> k in ks && StartsWith(k, p)
  {
    if ks == [] then []
    else (if StartsWith(ks[0], p) then [ks[0]] else []) + KeysWith(ks[1..], p)
  }

  /** `keys.filter(x => x.startsWith(p)).map(x => x.substring(9))` */
  function IdsWith(body: Form, p: string): (ids: seq<string>)
  {
    var ks := KeysWith(Keys(body), p);
    seq(|ks|, i requires 0 <= i < |ks| => Drop(ks[i], 9))
  }

  lemma IdsWithMembers(body: Form, p: string, id: string)
    ensures id in IdsWith(body, p) <==> exists k :: k in Keys(body) && StartsWith(k, p) && id == Drop(k, 9)
  {
    var ks := KeysWith(Keys(body), p);
    var ids := IdsWith(body, p);
    if id in ids {
      var i :| 0 <= i < |ids| && ids[i] == id;
      assert ks[i] in ks;
    }
    if exists k :: k in Keys(body) && StartsWith(k, p) && id == Drop(k, 9) {
      var k :| k in Keys(body) && StartsWith(k, p) && id == Drop(k, 9);
      var i :| 0 <= i < |ks| && ks[i] == k;
      assert ids[i] == id;
    }
  }

  /** An id of `IdsWith(body, p + [c])` comes from the key `p + id`. */
  lemma KeyOfId(body: Form, p: string, c: char, id: string)
    requires |p| == 9 && id in IdsWith(body, p + [c])
    ensures p + id in Keys(body) && StartsWith(p + id, p + [c]) && Drop(p + id, 9) == id
  {
    IdsWithMembers(body, p + [c], id);
    var k :| k in Keys(body) && StartsWith(k, p + [c]) && id == Drop(k, 9);
    IdOfKey(k, p, c);
  }

  /** A key `p<c>…` of the form gives the id that follows `p`. */
  lemma IdOfListedKey(body: Form, p: string, c: char, k: string)
    requires |p| == 9 && k in Keys(body) && StartsWith(k, p + [c])
    ensures Drop(k, 9) in IdsWith(body, p + [c]) && p + Drop(k, 9) == k
  {
    IdOfKey(k, p, c);
    IdsWithMembers(body, p + [c], Drop(k, 9));
  }

  /** What a `for` loop over `ids` pushes when it pushes `f(id)` for the ids
      `f` gives something for: those values, in order. */
  function KeepSome<T>(ids: seq<string>, f: string -> Option<T>): (r: seq<T>)
    ensures |r| <= |ids|
  {
    if ids == [] then []
    else KeepSome(ids[..|ids| - 1], f) + (match f(ids[|ids| - 1]) case Some(x) => [x] case None => [])
  }

  /** One more id pushes its value, if it has one. */
  lemma KeepSomeStep<T>(ids: seq<string>, f: string -> Option<T>, i: nat)
    requires i < |ids|
    ensures KeepSome(ids[..i + 1], f) == KeepSome(ids[..i], f) + (match f(ids[i]) case Some(x) => [x] case None => [])
  {
    assert ids[..i + 1][..i] == ids[..i];
  }

  /** A value is pushed exactly when some id gives it. */
  lemma {:induction false} KeepSomeMembers<T>(ids: seq<string>, f: string -> Option<T>, x: T)
    ensures x in KeepSome(ids, f) <==> exists id :: id in ids && f(id) == Some(x)
    decreases |ids|
  {
    if ids != [] {
      var front := ids[..|ids| - 1];
      var last := ids[|ids| - 1];
      KeepSomeMembers(front, f, x);
      assert ids == front + [last];
      assert forall id :: id in ids <==> id in front || id == last;
    }
  }

  // ---------------------------------------------------------------------------
  // parseQuestions

  /** Whether `key` names an answer of the question `qId`: a plain suffix test. */
  predicate AnswerKeyOf(key: string, qId: string)
  {
    EndsWith(key, qId) && StartsWith(key, "aContent-a")
  }

  /** The answer an `aContent-` key yields, if its id and content are truthy. */
  function AnswerAt(body: Form, key: string): (a: Option<Answer>)
    ensures a.Some? ==> a.value.aId == Drop(key, 9) && a.value.aContent != ""
  {
    var aId := Drop(key, 9);
    var aContent := Get(body, key);
    if aId != "" && Filled(aContent) then
      Some(Answer(aId, aContent.value, Get(body, "aResult-" + aId)))
    else None
  }

  /** The answers among the keys `ks` of the question `qId`, in key order: the
      filter on the keys, the map to answers and the filter of the nulls. */
  function AnswersAmong(body: Form, ks: seq<string>, qId: string): seq<Answer>
  {
    if ks == [] then []
    else
      var here := if AnswerKeyOf(ks[0], qId) && AnswerAt(body, ks[0]).Some? then [AnswerAt(body, ks[0]).value] else [];
      here + AnswersAmong(body, ks[1..], qId)
  }

  /** An answer is kept exactly when some key names the question and yields it. */
  lemma {:induction false} AnswersAmongMembers(body: Form, ks: seq<string>, qId: string, a: Answer)
    ensures a in AnswersAmong(body, ks, qId) <==> exists k :: k in ks && AnswerKeyOf(k, qId) && AnswerAt(body, k) == Some(a)
    decreases |ks|
  {
    if ks != [] {
      AnswersAmongMembers(body, ks[1..], qId, a);
      assert forall k :: k in ks <==> k == ks[0] || k in ks[1..];
    }
  }

  function AnswersFor(body: Form, qId: string): seq<Answer>
  {
    AnswersAmong(body, Keys(body), qId)
  }

  /** Whether the id taken from a `qContent-q` key gives a question. */
  predicate QuestionKept(body: Form, qId: string)
  {
    qId != "" && Filled(Get(body, "qContent-" + qId))
  }

  function MakeQuestion(body: Form, qId: string): Question
    requires QuestionKept(body, qId)
  {
    Question(qId, Get(body, "qContent-" + qId).value, AnswersFor(body, qId))
  }

  /** The question the id taken from a `qContent-q` key gives, if any. */
  function QuestionOfId(body: Form): string -> Option<Question>
  {
    id => if QuestionKept(body, id) then Some(MakeQuestion(body, id)) else None
  }

  /** The questions the loop pushes for the ids `ids`, in order. */
  function QuestionsOf(body: Form, ids: seq<string>): seq<Question>
  {
    KeepSome(ids, QuestionOfId(body))
  }

  lemma QuestionsOfMembers(body: Form, ids: seq<string>, q: Question)
    ensures q in QuestionsOf(body, ids) <==> exists id :: id in ids && QuestionKept(body, id) && q == MakeQuestion(body, id)
  {
    KeepSomeMembers(ids, QuestionOfId(body), q);
    if exists id :: id in ids && QuestionKept(body, id) && q == MakeQuestion(body, id) {
      var id :| id in ids && QuestionKept(body, id) && q == MakeQuestion(body, id);
      assert QuestionOfId(body)(id) == Some(q);
    }
  }

  /** `parseQuestions(body)` */
  function Questions(body: Form): seq<Question>
  {
    QuestionsOf(body, IdsWith(body, "qContent-q"))
  }

  /** The loop of `parseQuestions`. */
  method ParseQuestions(body: Form) returns (qs: seq<Question>)
    ensures qs == Questions(body)
  {
    var qids := IdsWith(body, "qContent-q");
    qs := [];
    var i := 0;
    while i < |qids|
      invariant 0 <= i <= |qids|
      invariant qs == QuestionsOf(body, qids[..i])
    {
      var qId := qids[i];
      KeepSomeStep(qids, QuestionOfId(body), i);
      var content := Get(body, "qContent-" + qId);
      if qId != "" && Filled(content) {
        var q := Question(qId, content.value, AnswersFor(body, qId));
        qs := qs + [q];
      }
      i := i + 1;
    }
    assert qids[..i] == qids;
  }

  /** The question the key `k` of the form stands for. */
  ghost predicate QuestionFromKey(body: Form, k: string, q: Question)
  {
    k in Keys(body) && StartsWith(k, "qContent-q") && Filled(Get(body, k))
    && q == Question(Drop(k, 9), Get(body, k).value, AnswersFor(body, Drop(k, 9)))
  }

  /** Exactly one question per `qContent-q` key with a truthy value; its id is
      the key without the 9-character `qContent-` prefix. */
  lemma QuestionsExact(body: Form, q: Question)
    ensures q in Questions(body) <==> exists k :: QuestionFromKey(body, k, q)
  {
    if q in Questions(body) {
      QuestionFromSomeKey(body, q);
    }
    if exists k :: QuestionFromKey(body, k, q) {
      var k :| QuestionFromKey(body, k, q);
      QuestionOfKey(body, k, q);
    }
  }

  lemma QuestionFromSomeKey(body: Form, q: Question)
    requires q in Questions(body)
    ensures exists k :: QuestionFromKey(body, k, q)
  {
    var ids := IdsWith(body, "qContent-q");
    QuestionsOfMembers(body, ids, q);
    var id :| id in ids && QuestionKept(body, id) && q == MakeQuestion(body, id);
    assert "qContent-" + ['q'] == "qContent-q";
    KeyOfId(body, "qContent-", 'q', id);
    assert QuestionFromKey(body, "qContent-" + id, q);
  }

  lemma QuestionOfKey(body: Form, k: string, q: Question)
    requires QuestionFromKey(body, k, q)
    ensures q in Questions(body)
  {
    var ids := IdsWith(body, "qContent-q");
    var id := Drop(k, 9);
    assert "qContent-" + ['q'] == "qContent-q";
    IdOfListedKey(body, "qContent-", 'q', k);
    assert id in ids && QuestionKept(body, id) && q == MakeQuestion(body, id);
    QuestionsOfMembers(body, ids, q);
  }

  /** An answer belongs to a question exactly when its key starts with
      `aContent-a`, ends with the question's id and has a truthy value; its
      `aResult` is the `aResult-<aId>` field, possibly missing. */
  lemma AnswersExact(body: Form, qId: string, a: Answer)
    ensures a in AnswersFor(body, qId) <==>
      exists k :: k in Keys(body) && StartsWith(k, "aContent-a") && EndsWith(k, qId) && Filled(Get(body, k))
                  && a == Answer(Drop(k, 9), Get(body, k).value, Get(body, "aResult-" + Drop(k, 9)))
  {
    AnswersAmongMembers(body, Keys(body), qId, a);
  }

  /** The suffix match is plain: the answers of a question whose id ends with
      another question's id are answers of that other question too (those of
      `qq1` are also answers of `q1`). */
  lemma SuffixSharesAnswers(body: Form, qId: string, longer: string, a: Answer)
    requires EndsWith(longer, qId)
    requires a in AnswersFor(body, longer)
    ensures a in AnswersFor(body, qId)
  {
    AnswersAmongMembers(body, Keys(body), longer, a);
    AnswersAmongMembers(body, Keys(body), qId, a);
    var k :| k in Keys(body) && AnswerKeyOf(k, longer) && AnswerAt(body, k) == Some(a);
    assert k[|k| - |qId|..] == k[|k| - |longer|..][|longer| - |qId|..];
    assert AnswerKeyOf(k, qId);
  }

  // ---------------------------------------------------------------------------
  // parseResults

  predicate ResultKept(body: Form, rId: string)
  {
    rId != "" && Filled(Get(body, "rContent-" + rId))
  }

  function MakeResult(body: Form, rId: string): QuizResult
    requires ResultKept(body, rId)
  {
    var credit := Get(body, "rThumbnailCredit-" + rId);
    QuizResult(rId, Get(body, "rContent-" + rId).value, if Filled(credit) then credit else None, map[])
  }

  /** The result the id taken from an `rContent-r` key gives, if any. */
  function ResultOfId(body: Form): string -> Option<QuizResult>
  {
    id => if ResultKept(body, id) then Some(MakeResult(body, id)) else None
  }

  /** The results the loop pushes for the ids `ids`, in order. */
  function ResultsOf(body: Form, ids: seq<string>): seq<QuizResult>
  {
    KeepSome(ids, ResultOfId(body))
  }

  lemma ResultsOfMembers(body: Form, ids: seq<string>, r: QuizResult)
    ensures r in ResultsOf(body, ids) <==> exists id :: id in ids && ResultKept(body, id) && r == MakeResult(body, id)
  {
    KeepSomeMembers(ids, ResultOfId(body), r);
    if exists id :: id in ids && ResultKept(body, id) && r == MakeResult(body, id) {
      var id :| id in ids && ResultKept(body, id) && r == MakeResult(body, id);
      assert ResultOfId(body)(id) == Some(r);
    }
  }

  /** `parseResults(body)` */
  function Results(body: Form): seq<QuizResult>
  {
    ResultsOf(body, IdsWith(body, "rContent-r"))
  }

  /** The loop of `parseResults`. */
  method ParseResults(body: Form) returns (rs: seq<QuizResult>)
    ensures rs == Results(body)
  {
    var ids := IdsWith(body, "rContent-r");
    rs := [];
    var i := 0;
    while i < |ids|
      invariant 0 <= i <= |ids|
      invariant rs == ResultsOf(body, ids[..i])
    {
      var id := ids[i];
      KeepSomeStep(ids, ResultOfId(body), i);
      var content := Get(body, "rContent-" + id);
      if id != "" && Filled(content) {
        var r := QuizResult(id, content.value, None, map[]);
        var credit := Get(body, "rThumbnailCredit-" + id);
        if Filled(credit) {
          r := r.(credit := credit);
        }
        rs := rs + [r];
      }
      i := i + 1;
    }
    assert ids[..i] == ids;
  }

  /** The result the key `k` of the form stands for. */
  ghost predicate ResultFromKey(body: Form, k: string, r: QuizResult)
  {
    && k in Keys(body) && StartsWith(k, "rContent-r") && Filled(Get(body, k))
    && r.rId == Drop(k, 9) && r.rContent == Get(body, k).value && r.extra == map[]
    && (r.credit.Some? <==> Filled(Get(body, "rThumbnailCredit-" + r.rId)))
    && (r.credit.Some? ==> r.credit == Get(body, "rThumbnailCredit-" + r.rId))
  }

  /** One result per `rContent-r` key with a truthy value, whose id is the key
      without `rContent-`; its credit is present exactly when the matching
      `rThumbnailCredit-` field is truthy. */
  lemma ResultsExact(body: Form, r: QuizResult)
    ensures r in Results(body) <==> exists k :: ResultFromKey(body, k, r)
  {
    if r in Results(body) {
      ResultFromSomeKey(body, r);
    }
    if exists k :: ResultFromKey(body, k, r) {
      var k :| ResultFromKey(body, k, r);
      ResultOfKey(body, k, r);
    }
  }

  lemma ResultFromSomeKey(body: Form, r: QuizResult)
    requires r in Results(body)
    ensures exists k :: ResultFromKey(body, k, r)
  {
    var ids := IdsWith(body, "rContent-r");
    ResultsOfMembers(body, ids, r);
    var id :| id in ids && ResultKept(body, id) && r == MakeResult(body, id);
    assert "rContent-" + ['r'] == "rContent-r";
    KeyOfId(body, "rContent-", 'r', id);
    assert ResultFromKey(body, "rContent-" + id, r);
  }

  lemma ResultOfKey(body: Form, k: string, r: QuizResult)
    requires ResultFromKey(body, k, r)
    ensures r in Results(body)
  {
    var ids := IdsWith(body, "rContent-r");
    var id := Drop(k, 9);
    assert "rContent-" + ['r'] == "rContent-r";
    IdOfListedKey(body, "rContent-", 'r', k);
    assert id in ids && ResultKept(body, id) && r == MakeResult(body, id);
    ResultsOfMembers(body, ids, r);
  }

  // ---------------------------------------------------------------------------
  // updateResult and the merge of updateResults

  /** An optional field as a JavaScript value. */
  function OptionalValue(o: Option<string>): (v: JsValue)
    ensures v.Str? <==> o.Some?
  {
    if o.Some? then Str(o.value) else Undefined
  }

  /** `updateResult(rNew, rOld)`: the old result with the new content, and with
      the new credit when that is truthy and differs. */
  function UpdateResult(rNew: QuizResult, rOld: QuizResult): (r: QuizResult)
    ensures r.rId == rOld.rId && r.extra == rOld.extra
    ensures r.rContent == rNew.rContent
    ensures r.credit == if Filled(rNew.credit) then rNew.credit else rOld.credit
  {
    var r := rOld;
    var r := if !LooseEquals(Str(rNew.rContent), Str(rOld.rContent)) then r.(rContent := rNew.rContent) else r;
    LooseEqualsOnStrings(rNew.rContent, rOld.rContent);
    if Filled(rNew.credit) && !LooseEquals(OptionalValue(rNew.credit), OptionalValue(rOld.credit)) then
      r.(credit := rNew.credit)
    else r
  }

  /** Resubmitting the same result a second time changes nothing more. */
  lemma UpdateResultIdempotent(rNew: QuizResult, rOld: QuizResult)
    ensures UpdateResult(rNew, UpdateResult(rNew, rOld)) == UpdateResult(rNew, rOld)
  {
  }

  /** The index of the first stored result whose id equals `rId`. */
  function FirstWithId(stored: seq<QuizResult>, rId: string): (j: Option<nat>)
    ensures j.Some? ==> j.value < |stored| && stored[j.value].rId == rId
    ensures j.Some? ==> forall k :: 0 <= k < j.value ==> stored[k].rId != rId
    ensures j.None? ==> forall k :: 0 <= k < |stored| ==> stored[k].rId != rId
  {
    if stored == [] then None
    else if stored[0].rId == rId then Some(0)
    else
      match FirstWithId(stored[1..], rId)
      case None => None
      case Some(j) => Some(j + 1)
  }

  /** What the merge makes of one resubmitted result. */
  function MergedOne(rNew: QuizResult, stored: seq<QuizResult>): QuizResult
  {
    match FirstWithId(stored, rNew.rId)
    case None => rNew
    case Some(j) => UpdateResult(rNew, stored[j])
  }

  /** `res.map(rNew => …)` in `updateResults`: the inner loop returns at the
      first stored result with the same id. */
  method MergeResults(parsed: seq<QuizResult>, stored: seq<QuizResult>) returns (final: seq<QuizResult>)
    ensures |final| == |parsed|
    ensures forall i :: 0 <= i < |parsed| ==> final[i] == MergedOne(parsed[i], stored)
  {
    final := [];
    var i := 0;
    while i < |parsed|
      invariant 0 <= i <= |parsed|
      invariant |final| == i
      invariant forall n :: 0 <= n < i ==> final[n] == MergedOne(parsed[n], stored)
    {
      var rNew := parsed[i];
      var merged := rNew;
      var j := 0;
      while j < |stored|
        invariant 0 <= j <= |stored|
        invariant forall k :: 0 <= k < j ==> stored[k].rId != rNew.rId
      {
        if rNew.rId == stored[j].rId {
          merged := UpdateResult(rNew, stored[j]);
          break;
        }
        j := j + 1;
      }
      assert merged == MergedOne(rNew, stored);
      final := final + [merged];
      i := i + 1;
    }
  }

  /** The merge keeps one result per resubmitted result, with its id and
      content; a stored result keeps its other fields, and stored results that
      were not resubmitted are gone. */
  lemma MergeKeepsIds(rNew: QuizResult, stored: seq<QuizResult>)
    ensures MergedOne(rNew, stored).rId == rNew.rId
    ensures MergedOne(rNew, stored).rContent == rNew.rContent
    ensures FirstWithId(stored, rNew.rId).None? ==> MergedOne(rNew, stored) == rNew
    ensures (exists j :: 0 <= j < |stored| && stored[j].rId == rNew.rId) ==>
      exists j :: 0 <= j < |stored| && stored[j].rId == rNew.rId && MergedOne(rNew, stored).extra == stored[j].extra
  {
    match FirstWithId(stored, rNew.rId)
    case None =>
    case Some(j) =>
      assert stored[j].rId == rNew.rId && MergedOne(rNew, stored).extra == stored[j].extra;
  }

  // ---------------------------------------------------------------------------
  // grade and maxOfMap

  /** The key of the tally: the result object an answer picked (by its index in
      the quiz's results) or `undefined` when the answer matched none. */
  datatype Bucket = Unmatched | ResultAt(index: nat)

  /** `{q, r}`: the question and the result one answered key found. */
  datatype Pick = Pick(question: Option<nat>, result: Bucket)

  /** The index of the last question whose id equals `key`: the loop never breaks. */
  function LastQuestion(questions: seq<Question>, key: string): (q: Option<nat>)
    ensures q.Some? ==> q.value < |questions| && questions[q.value].qId == key
    ensures q.Some? ==> forall k :: q.value < k < |questions| ==> questions[k].qId != key
    ensures q.None? ==> forall k :: 0 <= k < |questions| ==> questions[k].qId != key
  {
    if questions == [] then None
    else if questions[|questions| - 1].qId == key then Some(|questions| - 1)
    else LastQuestion(questions[..|questions| - 1], key)
  }

  /** The last result whose id equals the answer's value. */
  function LastResult(results: seq<QuizResult>, answer: string): (b: Bucket)
    ensures b.ResultAt? ==> b.index < |results| && results[b.index].rId == answer
    ensures b.ResultAt? ==> forall k :: b.index < k < |results| ==> results[k].rId != answer
    ensures b.Unmatched? ==> forall k :: 0 <= k < |results| ==> results[k].rId != answer
  {
    if results == [] then Unmatched
    else if results[|results| - 1].rId == answer then ResultAt(|results| - 1)
    else LastResult(results[..|results| - 1], answer)
  }

  /** The pick of one key of the reader's form. */
  function PickFor(quiz: Quiz, body: Form, key: string): Pick
  {
    var answer := Get(body, key);
    Pick(LastQuestion(quiz.questions, key),
         if answer.Some? then LastResult(quiz.results, answer.value) else Unmatched)
  }

  /** The first inner loop of `grade`: the question the key names. */
  method FindQuestion(questions: seq<Question>, key: string) returns (q: Option<nat>)
    ensures q == LastQuestion(questions, key)
  {
    q := None;
    var j := 0;
    while j < |questions|
      invariant 0 <= j <= |questions|
      invariant q == LastQuestion(questions[..j], key)
    {
      assert questions[..j + 1][..j] == questions[..j];
      if questions[j].qId == key {
        q := Some(j);
      }
      j := j + 1;
    }
    assert questions[..j] == questions;
  }

  /** The second inner loop of `grade`: the result the answer names. */
  method FindResult(results: seq<QuizResult>, answer: Option<string>) returns (r: Bucket)
    ensures r == if answer.Some? then LastResult(results, answer.value) else Unmatched
  {
    r := Unmatched;
    var j := 0;
    while j < |results|
      invariant 0 <= j <= |results|
      invariant r == if answer.Some? then LastResult(results[..j], answer.value) else Unmatched
    {
      assert results[..j + 1][..j] == results[..j];
      if answer.Some? && answer.value == results[j].rId {
        r := ResultAt(j);
      }
      j := j + 1;
    }
    assert results[..j] == results;
  }

  /** The picks of the form's keys, in key order. */
  function Picks(quiz: Quiz, body: Form): (ps: seq<Pick>)
    ensures |ps| == |body|
  {
    seq(|body|, i requires 0 <= i < |body| => PickFor(quiz, body, body[i].key))
  }

  /** The nested loops of `grade`: one pick per key of the form, in key order. */
  method PickAll(quiz: Quiz, body: Form) returns (picks: seq<Pick>)
    ensures picks == Picks(quiz, body)
  {
    var ques := Keys(body);
    picks := [];
    var i := 0;
    while i < |ques|
      invariant 0 <= i <= |ques|
      invariant picks == Picks(quiz, body)[..i]
    {
      var key := ques[i];
      var q := FindQuestion(quiz.questions, key);
      var r := FindResult(quiz.results, Get(body, key));
      assert Picks(quiz, body)[..i + 1] == Picks(quiz, body)[..i] + [Pick(q, r)];
      picks := picks + [Pick(q, r)];
      i := i + 1;
    }
  }

  /** A JavaScript `Map` from bucket to count, in insertion order. */
  type Tally = seq<(Bucket, nat)>

  predicate DistinctKeys(t: Tally)
  {
    forall i, j :: 0 <= i < j < |t| ==> t[i].0 != t[j].0
  }

  /** `map.has(k)` / `map.get(k)`: where the key's entry is. */
  function Find(t: Tally, k: Bucket): (i: Option<nat>)
    ensures i.Some? ==> i.value < |t| && t[i.value].0 == k
    ensures i.None? ==> forall j :: 0 <= j < |t| ==> t[j].0 != k
  {
    if t == [] then None
    else if t[0].0 == k then Some(0)
    else
      match Find(t[1..], k)
      case None => None
      case Some(i) => Some(i + 1)
  }

  /** One step of the tally loop: a new key enters with 1, a known one goes up by 1. */
  function Bump(t: Tally, k: Bucket): Tally
  {
    match Find(t, k)
    case None => t + [(k, 1)]
    case Some(i) => t[i := (k, t[i].1 + 1)]
  }

  /** The `Map` the tally loop builds from the picked buckets. */
  function TallyOf(buckets: seq<Bucket>): Tally
  {
    if buckets == [] then [] else Bump(TallyOf(buckets[..|buckets| - 1]), buckets[|buckets| - 1])
  }

  /** Each bucket has one entry, counting how often it was picked, and the
      entries are exactly the picked buckets. */
  lemma {:induction false} TallyCounts(buckets: seq<Bucket>)
    ensures DistinctKeys(TallyOf(buckets))
    ensures forall i :: 0 <= i < |TallyOf(buckets)| ==> TallyOf(buckets)[i].1 == multiset(buckets)[TallyOf(buckets)[i].0]
    ensures forall k :: k in buckets <==> exists i :: 0 <= i < |TallyOf(buckets)| && TallyOf(buckets)[i].0 == k
    decreases |buckets|
  {
    if buckets != [] {
      var front := buckets[..|buckets| - 1];
      var k := buckets[|buckets| - 1];
      assert buckets == front + [k];
      TallyCounts(front);
      var t := TallyOf(front);
      var u := TallyOf(buckets);
      assert multiset(buckets) == multiset(front) + multiset{k};
      match Find(t, k)
      case None =>
        assert u == t + [(k, 1)];
        assert k !in front;
        assert multiset(front)[k] == 0;
        forall x
          ensures x in buckets <==> exists i :: 0 <= i < |u| && u[i].0 == x
        {
          if x in buckets && x != k {
            assert x in front;
            var i :| 0 <= i < |t| && t[i].0 == x;
            assert u[i].0 == x;
          }
          assert u[|u| - 1].0 == k;
        }
      case Some(i) =>
        assert u == t[i := (k, t[i].1 + 1)];
        forall x
          ensures x in buckets <==> exists j :: 0 <= j < |u| && u[j].0 == x
        {
          if x in buckets {
            assert x in front || x == k;
            var j :| 0 <= j < |t| && t[j].0 == x;
            assert u[j].0 == x;
          }
          if exists j :: 0 <= j < |u| && u[j].0 == x {
            var j :| 0 <= j < |u| && u[j].0 == x;
            assert t[j].0 == x;
          }
        }
    }
  }

  /** The tally loop of `grade`. */
  method TallyPicks(picks: seq<Pick>) returns (result: Tally)
    ensures result == TallyOf(seq(|picks|, i requires 0 <= i < |picks| => picks[i].result))
  {
    var buckets := seq(|picks|, i requires 0 <= i < |picks| => picks[i].result);
    result := [];
    var i := 0;
    while i < |picks|
      invariant 0 <= i <= |picks|
      invariant result == TallyOf(buckets[..i])
    {
      assert buckets[..i + 1][..i] == buckets[..i];
      var k := picks[i].result;
      var at := Find(result, k);
      if at.None? {
        result := result + [(k, 1)];
      } else {
        result := result[at.value := (k, result[at.value].1 + 1)];
      }
      i := i + 1;
    }
    assert buckets[..i] == buckets;
  }

  /** Where the running maximum of `maxOfMap` ends: the first entry with the
      greatest count. */
  function FirstMaxIndex(t: Tally): (m: nat)
    requires t != []
    ensures m < |t|
    ensures forall j :: 0 <= j < |t| ==> t[j].1 <= t[m].1
    ensures forall j :: 0 <= j < m ==> t[j].1 < t[m].1
  {
    if |t| == 1 then 0
    else
      var m := FirstMaxIndex(t[..|t| - 1]);
      if t[|t| - 1].1 > t[m].1 then |t| - 1 else m
  }

  /** `maxOfMap(map)`: None is the `null` of an empty map. */
  method MaxOfMap(t: Tally) returns (k: Option<Bucket>)
    ensures t == [] ==> k == None
    ensures t != [] ==> k == Some(t[FirstMaxIndex(t)].0)
  {
    k := None;
    var v: int := -1;
    var i := 0;
    while i < |t|
      invariant 0 <= i <= |t|
      invariant i == 0 ==> k == None && v == -1
      invariant i > 0 ==> k == Some(t[FirstMaxIndex(t[..i])].0) && v == t[FirstMaxIndex(t[..i])].1
    {
      assert t[..i + 1][..i] == t[..i];
      if t[i].1 > v {
        k := Some(t[i].0);
        v := t[i].1;
      }
      i := i + 1;
    }
    assert t[..i] == t;
  }

  /** The buckets of the reader's form, in key order. */
  function Buckets(quiz: Quiz, body: Form): (bs: seq<Bucket>)
    ensures |bs| == |body|
  {
    seq(|body|, i requires 0 <= i < |body| => Picks(quiz, body)[i].result)
  }

  /** The result `grade` renders. */
  function Winner(quiz: Quiz, body: Form): Option<Bucket>
  {
    var t := TallyOf(Buckets(quiz, body));
    if t == [] then None else Some(t[FirstMaxIndex(t)].0)
  }

  /** `grade`, after the stored quiz is read. */
  method Grade(quiz: Quiz, body: Form) returns (winner: Option<Bucket>)
    ensures winner == Winner(quiz, body)
  {
    var picks := PickAll(quiz, body);
    assert seq(|picks|, i requires 0 <= i < |picks| => picks[i].result) == Buckets(quiz, body);
    var result := TallyPicks(picks);
    winner := MaxOfMap(result);
  }

  /** The winner is a picked bucket nobody picked more often; there is none
      exactly when the form is empty. */
  lemma WinnerHasMostVotes(quiz: Quiz, body: Form)
    ensures Winner(quiz, body).None? <==> body == []
    ensures Winner(quiz, body).Some? ==>
      var b := Winner(quiz, body).value;
      b in Buckets(quiz, body)
      && forall other :: multiset(Buckets(quiz, body))[other] <= multiset(Buckets(quiz, body))[b]
  {
    var bs := Buckets(quiz, body);
    TallyCounts(bs);
    var t := TallyOf(bs);
    if body != [] {
      assert bs[0] in bs;
      var m := FirstMaxIndex(t);
      assert t[m].0 in bs;
      forall other
        ensures multiset(bs)[other] <= multiset(bs)[t[m].0]
      {
        if other in bs {
          var i :| 0 <= i < |t| && t[i].0 == other;
        }
      }
    } else {
      assert t == [];
    }
  }

  /** A tie goes to the bucket that entered the tally first: a corollary of
      the third `ensures` of `FirstMaxIndex`, stated on its own because the
      strict `>` of quizzes.js:286 is what it is about. */
  lemma TieGoesToFirst(t: Tally, i: nat)
    requires i < |t| && t != []
    requires t[i].1 == t[FirstMaxIndex(t)].1
    ensures FirstMaxIndex(t) <= i
  {
  }

  /** Two answers naming no result and one naming `r1`, in that order. */
  lemma ExampleBuckets(quiz: Quiz, body: Form)
    requires quiz.results == [QuizResult("r1", "R", None, map[])]
    requires body == [Field("q1", "nope"), Field("q2", "nope"), Field("q3", "r1")]
    ensures Buckets(quiz, body) == [Unmatched, Unmatched, ResultAt(0)]
  {
    assert Get(body, "q1") == Some("nope");
    assert Get(body, "q2") == Some("nope");
    assert body[2..] == [Field("q3", "r1")] && body[1..][1..] == body[2..];
    assert Get(body[2..], "q3") == Some("r1");
    assert Get(body[1..], "q3") == Some("r1");
    assert Get(body, "q3") == Some("r1");
    assert LastResult(quiz.results, "nope") == Unmatched;
    assert LastResult(quiz.results, "r1") == ResultAt(0);
  }

  /** The tally of those buckets: `undefined` twice, then `r1` once. */
  lemma ExampleTally()
    ensures TallyOf([Unmatched, Unmatched, ResultAt(0)]) == [(Unmatched, 2), (ResultAt(0), 1)]
  {
    var bs: seq<Bucket> := [Unmatched, Unmatched, ResultAt(0)];
    assert bs[..1] == [Unmatched] && bs[..2] == [Unmatched, Unmatched];
    assert TallyOf(bs[..1]) == [(Unmatched, 1)];
    assert Find([(Unmatched, 1)], Unmatched) == Some(0);
    assert TallyOf(bs[..2]) == [(Unmatched, 2)];
    assert Find([(Unmatched, 2)], ResultAt(0)) == None;
  }

  /** An answer that names no result is tallied under `undefined`, and two such
      answers outvote one valid answer. */
  lemma UnmatchedCanWin()
    ensures var quiz := Quiz("q", "Q", None, None, "t", None, [], [QuizResult("r1", "R", None, map[])]);
            Winner(quiz, [Field("q1", "nope"), Field("q2", "nope"), Field("q3", "r1")]) == Some(Unmatched)
  {
    var quiz := Quiz("q", "Q", None, None, "t", None, [], [QuizResult("r1", "R", None, map[])]);
    var body := [Field("q1", "nope"), Field("q2", "nope"), Field("q3", "r1")];
    ExampleBuckets(quiz, body);
    ExampleTally();
    var t: Tally := [(Unmatched, 2), (ResultAt(0), 1)];
    assert t[..1] == [(Unmatched, 2)];
    assert FirstMaxIndex(t) == 0;
  }

  // ---------------------------------------------------------------------------
  // create and index

  /** Where `create` sends the browser after the put: the quiz list, or the
      error page (`Lib.error`) when the put failed. */
  datatype Landing = ToQuizzes | ToErrorPage

  datatype Created = Denied | Crashed | Sent(quiz: Quiz, landing: Landing)

  /** `create`: the quiz sent to the put, keyed by the slug of its title, and
      where the browser lands. A missing title or upload throws before
      anything is sent. */
  function CreateQuiz(authenticated: bool, body: Form, upload: Option<string>, putFails: bool): (c: Created)
    ensures c.Denied? <==> !authenticated
    ensures c.Crashed? <==> authenticated && (Get(body, "title").None? || upload.None?)
    ensures c.Sent? ==> c.quiz.title == Get(body, "title").value && |c.quiz.quizId| <= 20
    ensures c.Sent? ==> c.quiz.quizId == Slug(c.quiz.title) && c.quiz.thumbnail == upload.value
    ensures c.Sent? ==> c.landing == if putFails then ToErrorPage else ToQuizzes
  {
    if !authenticated then Denied
    else
      var title := Get(body, "title");
      if title.None? || upload.None? then Crashed
      else
        Sent(Quiz(Slug(title.value), title.value, Get(body, "author"), Get(body, "blurb"),
                    upload.value, Get(body, "thumbnail_credit"), Questions(body), Results(body)),
               if putFails then ToErrorPage else ToQuizzes)
  }

  /** The two columns of the quiz index: `data.Count` is the number of quizzes. */
  function IndexColumns(items: seq<Quiz>): (c: Columns<Quiz>)
    ensures c.left + c.center == items
    ensures |c.center| - |c.left| in {0, 1}
  {
    HalvesBalanced(items);
    Halves(items, |items|)
  }
}
