/**
 * Case-insensitive substring search over the course catalog
 * (the filtering loop of `search_courses` in backend/recommendation_model.py).
 */
module CatalogSearch {
  import opened Wrappers

  /**
   * A course document. Either field may be absent from the stored record;
   * `dict.get(field, '')` then reads it as the empty string.
   */
  datatype Course = Course(title: Option<string>, description: Option<string>)

  /** A field as the search reads it: an absent one is "". */
  function FieldText(field: Option<string>): (r: string)
    ensures field.Some? ==> r == field.value
    ensures field.None? ==> r == ""
  {
    field.GetOr("")
  }

  /** ASCII lower-casing of one character. */
  function LowerChar(c: char): (r: char)
    ensures 'A' <= c <= 'Z' ==> 'a' <= r <= 'z' && r as int == c as int - 'A' as int + 'a' as int
    ensures !('A' <= c <= 'Z') ==> r == c
  {
    if 'A' <= c <= 'Z' then (c as int - 'A' as int + 'a' as int) as char else c
  }

  /** `str.lower()`, restricted to ASCII letters. */
  function Lower(s: string): (r: string)
    ensures |r| == |s|
    ensures forall i :: 0 <= i < |s| ==> r[i] == LowerChar(s[i])
  {
    seq(|s|, i requires 0 <= i < |s| => LowerChar(s[i]))
  }

  /** Lower-casing twice is lower-casing once. */
  lemma LowerIdempotent(s: string)
    ensures Lower(Lower(s)) == Lower(s)
  {
  }

  /** `needle` occurs in `hay` starting at position `i`. */
  ghost predicate OccursAt(hay: string, needle: string, i: nat) {
    i + |needle| <= |hay| && hay[i..i + |needle|] == needle
  }

  /** Python's `needle in hay` on strings, by trying each start position. */
  function Contains(hay: string, needle: string): (r: bool)
    decreases |hay|
  {
    if |needle| > |hay| then false
    else if hay[..|needle|] == needle then true
    else Contains(hay[1..], needle)
  }

  /** Contains answers exactly whether `needle` occurs somewhere in `hay`. */
  lemma {:induction false} ContainsIffOccurs(hay: string, needle: string)
    ensures Contains(hay, needle) <==> exists i: nat :: OccursAt(hay, needle, i)
    decreases |hay|
  {
    if |needle| > |hay| {
    } else if hay[..|needle|] == needle {
      assert OccursAt(hay, needle, 0);
    } else {
      ContainsIffOccurs(hay[1..], needle);
      if Contains(hay[1..], needle) {
        var i: nat :| OccursAt(hay[1..], needle, i);
        assert hay[i + 1..i + 1 + |needle|] == hay[1..][i..i + |needle|];
        assert OccursAt(hay, needle, i + 1);
      } else {
        forall i: nat | OccursAt(hay, needle, i) ensures false {
          if i > 0 {
            assert hay[1..][i - 1..i - 1 + |needle|] == hay[i..i + |needle|];
            assert OccursAt(hay[1..], needle, i - 1);
          }
        }
      }
    }
  }

  /** The empty string occurs in every string. */
  lemma ContainsEmpty(hay: string)
    ensures Contains(hay, "")
  {
  }

  /** The per-course test of the loop: the lower-cased query is in the title or the description. */
  predicate Matches(course: Course, query: string) {
    || Contains(Lower(FieldText(course.title)), Lower(query))
    || Contains(Lower(FieldText(course.description)), Lower(query))
  }

  /** The matching courses, in catalog order. */
  function Matching(courses: seq<Course>, query: string): (r: seq<Course>)
    ensures forall c :: c in r <==> c in courses && Matches(c, query)
    ensures |r| <= |courses|
  {
    if courses == [] then []
    else (if Matches(courses[0], query) then [courses[0]] else []) + Matching(courses[1..], query)
  }

  /** Matching keeps the catalog order: it distributes over concatenation. */
  lemma {:induction false} MatchingAppend(a: seq<Course>, b: seq<Course>, query: string)
    ensures Matching(a + b, query) == Matching(a, query) + Matching(b, query)
  {
    if a != [] {
      assert (a + b)[1..] == a[1..] + b;
      MatchingAppend(a[1..], b, query);
    } else {
      assert a + b == b;
    }
  }

  /** An empty query matches every course, so the search returns the whole catalog. */
  lemma {:induction false} EmptyQueryMatchesAll(courses: seq<Course>)
    ensures Matching(courses, "") == courses
  {
    if courses != [] {
      ContainsEmpty(Lower(FieldText(courses[0].title)));
      EmptyQueryMatchesAll(courses[1..]);
    }
  }

  /** The search ignores letter case in the query. */
  lemma {:induction false} QueryCaseIgnored(courses: seq<Course>, query: string)
    ensures Matching(courses, Lower(query)) == Matching(courses, query)
  {
    LowerIdempotent(query);
    if courses != [] {
      QueryCaseIgnored(courses[1..], query);
    }
  }

  /**
   * A course matches exactly when the lower-cased query occurs in its
   * lower-cased title or description, an absent field reading as "".
   */
  lemma MatchesIffOccurs(course: Course, query: string)
    ensures Matches(course, query) <==>
      || (exists i: nat :: OccursAt(Lower(FieldText(course.title)), Lower(query), i))
      || (exists i: nat :: OccursAt(Lower(FieldText(course.description)), Lower(query), i))
  {
    ContainsIffOccurs(Lower(FieldText(course.title)), Lower(query));
    ContainsIffOccurs(Lower(FieldText(course.description)), Lower(query));
  }

  /** The loop of `search_courses`: append each matching course to the results. */
  method SearchCourses(courses: seq<Course>, query: string) returns (results: seq<Course>)
    ensures results == Matching(courses, query)
    ensures forall c :: c in results <==> c in courses && Matches(c, query)
  {
    results := [];
    for i := 0 to |courses|
      invariant results == Matching(courses[..i], query)
    {
      var course := courses[i];
      if Contains(Lower(FieldText(course.title)), Lower(query))
        || Contains(Lower(FieldText(course.description)), Lower(query))
      {
        results := results + [course];
      }
      assert courses[..i + 1] == courses[..i] + [course];
      MatchingAppend(courses[..i], [course], query);
    }
    assert courses[..|courses|] == courses;
  }
}
