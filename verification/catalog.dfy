/**
 * The fixed catalogue of selectable languages and the search filter that
 * decides which of them the dashboard shows.
 */
module Catalog {
  import opened Text
  import opened Seqs

  /** One selectable language: identifier, display name, flag emoji and a progress counter. */
  datatype Language = Language(id: int, name: string, flag: string, progress: int)

  /** The nine languages in display order. The flag shown for Arabic is Sweden's, as in the app. */
  const Languages: seq<Language> := [
    Language(1, "Japanese", "\U{1F1EF}\U{1F1F5}", 0),
    Language(2, "German", "\U{1F1E9}\U{1F1EA}", 0),
    Language(3, "Spanish", "\U{1F1EA}\U{1F1F8}", 0),
    Language(4, "Arabic", "\U{1F1F8}\U{1F1EA}", 0),
    Language(5, "Bangla", "\U{1F1E7}\U{1F1E9}", 0),
    Language(6, "Mandarin", "\U{1F1E8}\U{1F1F3}", 0),
    Language(7, "Russian", "\U{1F1F7}\U{1F1FA}", 0),
    Language(8, "Hindi", "\U{1F1EE}\U{1F1F3}", 0),
    Language(9, "Portuguese", "\U{1F1E7}\U{1F1F7}", 0)
  ]

  /** The catalogue's identifiers are 1 to 9 in order, so no two entries share one. */
  lemma CatalogueIds()
    ensures |Languages| == 9
    ensures forall i :: 0 <= i < |Languages| ==> Languages[i].id == i + 1
    ensures forall i, j :: 0 <= i < j < |Languages| ==> Languages[i].id != Languages[j].id
  {
  }

  /** A card is shown when its lower-cased name includes the lower-cased query. */
  predicate Matches(lang: Language, query: string) {
    Includes(Lower(lang.name), Lower(query))
  }

  /** `langs.filter(lang => Matches(lang, query))`. */
  function FilterLanguages(langs: seq<Language>, query: string): (r: seq<Language>)
    ensures |r| <= |langs|
    ensures forall l :: l in r <==> l in langs && Matches(l, query)
    ensures IsSubsequence(r, langs)
    decreases |langs|
  {
    if |langs| == 0 then []
    else
      var rest := FilterLanguages(langs[1..], query);
      if Matches(langs[0], query) then [langs[0]] + rest else rest
  }

  /** The languages shown for a search query. */
  function Visible(query: string): (r: seq<Language>)
    ensures |r| <= |Languages|
    ensures forall l :: l in r <==> l in Languages && Matches(l, query)
    ensures IsSubsequence(r, Languages)
  {
    FilterLanguages(Languages, query)
  }

  /** Filtering a concatenation filters each part and keeps them in order. */
  lemma {:induction false} FilterAppend(a: seq<Language>, b: seq<Language>, query: string)
    ensures FilterLanguages(a + b, query) == FilterLanguages(a, query) + FilterLanguages(b, query)
    decreases |a|
  {
    if |a| == 0 {
      assert a + b == b;
    } else {
      assert (a + b)[0] == a[0];
      assert (a + b)[1..] == a[1..] + b;
      FilterAppend(a[1..], b, query);
    }
  }

  /** When every entry matches, the filter returns its input unchanged. */
  lemma {:induction false} FilterAllMatch(langs: seq<Language>, query: string)
    requires forall l :: l in langs ==> Matches(l, query)
    ensures FilterLanguages(langs, query) == langs
    decreases |langs|
  {
    if |langs| > 0 {
      assert langs[0] in langs;
      FilterAllMatch(langs[1..], query);
    }
  }

  /** The empty query shows all nine languages in catalogue order. */
  lemma EmptyQueryShowsAll()
    ensures Visible("") == Languages
  {
    forall l | l in Languages
      ensures Matches(l, "")
    {
      IncludesEmpty(Lower(l.name));
    }
    FilterAllMatch(Languages, "");
  }

  /** The search ignores the case of the query. */
  lemma {:induction false} FilterIgnoresQueryCase(langs: seq<Language>, query: string)
    ensures FilterLanguages(langs, query) == FilterLanguages(langs, Lower(query))
    decreases |langs|
  {
    LowerIdempotent(query);
    if |langs| > 0 {
      FilterIgnoresQueryCase(langs[1..], query);
    }
  }

  /** A query longer than every name shows nothing. */
  lemma {:induction false} LongQueryShowsNothing(langs: seq<Language>, query: string)
    requires forall l :: l in langs ==> |l.name| < |query|
    ensures FilterLanguages(langs, query) == []
    decreases |langs|
  {
    if |langs| > 0 {
      assert langs[0] in langs;
      IncludesNotLonger(Lower(langs[0].name), Lower(query));
      LongQueryShowsNothing(langs[1..], query);
    }
  }

  /** When no entry matches, the filter returns nothing. */
  lemma {:induction false} FilterNoneMatch(langs: seq<Language>, query: string)
    requires forall l :: l in langs ==> !Matches(l, query)
    ensures FilterLanguages(langs, query) == []
    decreases |langs|
  {
    if |langs| > 0 {
      assert langs[0] in langs;
      FilterNoneMatch(langs[1..], query);
    }
  }

  /** No catalogue name other than Japanese contains a 'j' once lower-cased. */
  lemma NoOtherJ(k: nat)
    requires 1 <= k < |Languages|
    ensures 'j' !in Lower(Languages[k].name)
  {
    var n := Lower(Languages[k].name);
    assert forall i :: 0 <= i < |n| ==> n[i] != 'j';
  }

  /** Searching "JAP" shows only Japanese: the match is case-insensitive and no other name has a 'j'. */
  lemma SearchJapanese()
    ensures Visible("JAP") == [Languages[0]]
  {
    assert Lower("JAP") == "jap";
    assert Lower("Japanese") == "japanese";
    assert StartsWith("japanese", "jap");
    assert Matches(Languages[0], "JAP");
    var rest := Languages[1..];
    forall l | l in rest
      ensures !Matches(l, "JAP")
    {
      var k :| 0 <= k < |rest| && rest[k] == l;
      NoOtherJ(k + 1);
      MissingFirstCharNotIncluded(Lower(l.name), "jap");
    }
    FilterNoneMatch(rest, "JAP");
  }
}
