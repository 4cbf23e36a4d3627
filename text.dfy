/**
 * String helpers shared by the handlers: prefix and suffix tests, joining the
 * pieces a builder appends, and the id slug both posts and quizzes derive from
 * a title.
 */
module Text {
  import opened Js

  predicate StartsWith(s: string, prefix: string)
  {
    |prefix| <= |s| && s[..|prefix|] == prefix
  }

  predicate EndsWith(s: string, suffix: string)
  {
    |suffix| <= |s| && s[|s| - |suffix|..] == suffix
  }

  /** All the pieces, in order, as one string: what `out += piece` builds. */
  function Concat(parts: seq<string>): string
  {
    if parts == [] then "" else Concat(parts[..|parts| - 1]) + parts[|parts| - 1]
  }

  lemma {:induction false} ConcatAppend(a: seq<string>, b: seq<string>)
    ensures Concat(a + b) == Concat(a) + Concat(b)
    decreases |b|
  {
    if b == [] {
      assert a + b == a;
    } else {
      var b' := b[..|b| - 1];
      assert (a + b)[..|a + b| - 1] == a + b';
      ConcatAppend(a, b');
    }
  }

  lemma ConcatOne(a: seq<string>, x: string)
    ensures Concat(a + [x]) == Concat(a) + x
  {
    assert (a + [x])[..|a|] == a;
  }

  /** `toLocaleLowerCase` on one character: ASCII letters only here. */
  function LowerChar(c: char): (d: char)
    ensures !('A' <= d <= 'Z')
    ensures IsJsSpace(d) <==> IsJsSpace(c)
  {
    if 'A' <= c <= 'Z' then (c as int + 32) as char else c
  }

  /** One character of a slug: lower-cased, white space replaced by '-'. */
  function SlugChar(c: char): (d: char)
    ensures !IsJsSpace(d) && !('A' <= d <= 'Z')
    ensures d == '-' <==> (IsJsSpace(c) || c == '-')
    ensures !IsJsSpace(c) ==> d == LowerChar(c)
  {
    var l := LowerChar(c);
    if IsJsSpace(l) then '-' else l
  }

  /** `title.toLocaleLowerCase().substr(0, 20).replace(/\s/g, '-')` */
  function Slug(title: string): (id: string)
    ensures |id| == if |title| < 20 then |title| else 20
    ensures forall i :: 0 <= i < |id| ==> id[i] == SlugChar(title[i])
  {
    var n := if |title| < 20 then |title| else 20;
    seq(n, i requires 0 <= i < n => SlugChar(title[i]))
  }

  /** A slug has at most 20 characters, no white space and no upper-case
      letter, so deriving the id again from an id gives the same id. */
  lemma SlugIdempotent(title: string)
    ensures |Slug(title)| <= 20
    ensures forall i :: 0 <= i < |Slug(title)| ==> !IsJsSpace(Slug(title)[i])
    ensures Slug(Slug(title)) == Slug(title)
  {
    var id := Slug(title);
    forall i | 0 <= i < |id|
      ensures SlugChar(id[i]) == id[i]
    {
      var c := title[i];
      if IsJsSpace(LowerChar(c)) {
        assert id[i] == '-';
      } else {
        assert id[i] == LowerChar(c);
      }
    }
  }
}
