/**
 * The relevance ranker of `analyze_relevance`: every section gets an integer
 * score from keyword counts in its lower-cased title and content, sections
 * scoring zero are dropped, and the rest are stably sorted by descending
 * score and cut to the top twenty.
 */
module Ranker {
  import opened Text
  import opened Segmenter

  /** A section with the name of the document it came from. */
  datatype Tagged = Tagged(document: string, section: Section)

  /** A section with the relevance score it was given. */
  datatype Scored = Scored(item: Tagged, score: int)

  /** The vocabulary of each known persona, keyed by the lower-cased role. */
  const PersonaKeywords: map<string, seq<string>> := map[
    "travel planner" := ["trip", "travel", "visit", "tourist", "guide", "destination",
                         "itinerary", "booking", "hotel", "restaurant", "attractions", "activities"],
    "hr professional" := ["forms", "employee", "onboarding", "compliance", "policy",
                          "procedure", "management", "workflow", "documentation", "training"],
    "food contractor" := ["recipe", "menu", "cooking", "food", "ingredient", "meal",
                          "dining", "catering", "buffet", "vegetarian", "preparation"]
  ]

  /** Job keywords added when the task mentions "trip" or "travel". */
  const TravelJobKeywords: seq<string> := ["itinerary", "schedule", "planning", "group", "friends", "activities"]

  /** Job keywords added when the task mentions "forms" or "fillable". */
  const FormsJobKeywords: seq<string> := ["pdf", "form", "fill", "sign", "create", "template"]

  /** Job keywords added when the task mentions "menu" or "buffet". */
  const CateringJobKeywords: seq<string> := ["vegetarian", "corporate", "dinner", "meal", "buffet", "gathering"]

  /** How many sections the ranker returns at most. */
  const MaxRanked: nat := 20

  /** The persona's keywords, or none when the lower-cased role is not in the table. */
  function PersonaKeywordsFor(persona: string): seq<string>
  {
    var key := Lower(persona);
    if key in PersonaKeywords then PersonaKeywords[key] else []
  }

  /** The task mentions `a` or `b`, in any case. */
  predicate Mentions(task: string, a: string, b: string)
  {
    Contains(Lower(task), a) || Contains(Lower(task), b)
  }

  /** Lines 111-117: the job keyword groups the task triggers, in table order. */
  function JobKeywords(task: string): (r: seq<string>)
    ensures |r| <= |TravelJobKeywords| + |FormsJobKeywords| + |CateringJobKeywords|
    ensures Mentions(task, "trip", "travel") ==> TravelJobKeywords <= r
    ensures Mentions(task, "menu", "buffet") ==>
      |CateringJobKeywords| <= |r| && r[|r| - |CateringJobKeywords|..] == CateringJobKeywords
  {
    (if Mentions(task, "trip", "travel") then TravelJobKeywords else [])
    + (if Mentions(task, "forms", "fillable") then FormsJobKeywords else [])
    + (if Mentions(task, "menu", "buffet") then CateringJobKeywords else [])
  }

  /** A task that triggers no group has no job keywords, and each trigger adds its group. */
  lemma JobKeywordsByTrigger(task: string)
    ensures JobKeywords(task) == [] <==>
      !Mentions(task, "trip", "travel") && !Mentions(task, "forms", "fillable") && !Mentions(task, "menu", "buffet")
    ensures forall k :: k in JobKeywords(task) <==>
      || (Mentions(task, "trip", "travel") && k in TravelJobKeywords)
      || (Mentions(task, "forms", "fillable") && k in FormsJobKeywords)
      || (Mentions(task, "menu", "buffet") && k in CateringJobKeywords)
  {
  }

  // ---------------------------------------------------------------- score

  /** The total of `text.count(k)` over the keywords `k`. */
  function Hits(text: string, keywords: seq<string>): nat
  {
    if keywords == [] then 0
    else Hits(text, keywords[..|keywords| - 1]) + Count(text, keywords[|keywords| - 1])
  }

  /** The lower-cased `title + " " + content` the keywords are counted in. */
  function SearchText(sec: Section): string
  {
    Lower(sec.title + " " + sec.content)
  }

  /** Two points per persona keyword occurrence, three per job keyword
      occurrence, and one for content longer than 100 characters. */
  function KeywordScore(sec: Section, personaKeywords: seq<string>, jobKeywords: seq<string>): nat
  {
    2 * Hits(SearchText(sec), personaKeywords)
    + 3 * Hits(SearchText(sec), jobKeywords)
    + (if |sec.content| > 100 then 1 else 0)
  }

  /** The relevance score of a section for a persona and a task. */
  function Score(sec: Section, persona: string, task: string): nat
  {
    KeywordScore(sec, PersonaKeywordsFor(persona), JobKeywords(task))
  }

  /** Lines 122-137: the score of one section, accumulated keyword by keyword. */
  method ScoreSection(sec: Section, persona: string, jobKeywords: seq<string>) returns (score: int)
    ensures score == KeywordScore(sec, PersonaKeywordsFor(persona), jobKeywords)
  {
    score := 0;
    var text := Lower(sec.title + " " + sec.content);
    var key := Lower(persona);
    if key in PersonaKeywords {
      var keywords := PersonaKeywords[key];
      for i := 0 to |keywords|
        invariant score == 2 * Hits(text, keywords[..i])
      {
        score := score + Count(text, keywords[i]) * 2;
        assert keywords[..i + 1][..i] == keywords[..i];
      }
      assert keywords[..|keywords|] == keywords;
    }
    ghost var personaPart := score;
    for i := 0 to |jobKeywords|
      invariant score == personaPart + 3 * Hits(text, jobKeywords[..i])
    {
      score := score + Count(text, jobKeywords[i]) * 3;
      assert jobKeywords[..i + 1][..i] == jobKeywords[..i];
    }
    assert jobKeywords[..|jobKeywords|] == jobKeywords;
    if |sec.content| > 100 {
      score := score + 1;
    }
  }

  /** Some keyword occurs in the text exactly when the keyword total is positive. */
  lemma {:induction false} HitsPositiveIff(text: string, keywords: seq<string>)
    ensures Hits(text, keywords) > 0 <==> exists k :: k in keywords && Contains(text, k)
  {
    if keywords != [] {
      var init := keywords[..|keywords| - 1];
      var last := keywords[|keywords| - 1];
      HitsPositiveIff(text, init);
      CountPositiveIffContains(text, last);
      if exists k :: k in keywords && Contains(text, k) {
        var k :| k in keywords && Contains(text, k);
        if k != last {
          var j :| 0 <= j < |keywords| && keywords[j] == k;
          assert init[j] == k;
        }
      }
    }
  }

  /** A section scores above zero exactly when its text holds one of the
      persona's keywords or one of the task's keywords, or its content is
      longer than 100 characters. */
  lemma ScorePositiveIff(sec: Section, persona: string, task: string)
    ensures Score(sec, persona, task) > 0 <==>
      (exists k :: k in PersonaKeywordsFor(persona) && Contains(SearchText(sec), k)) ||
      (exists k :: k in JobKeywords(task) && Contains(SearchText(sec), k)) ||
      |sec.content| > 100
  {
    HitsPositiveIff(SearchText(sec), PersonaKeywordsFor(persona));
    HitsPositiveIff(SearchText(sec), JobKeywords(task));
  }

  /** An unknown persona contributes nothing to any score. */
  lemma UnknownPersonaScoresJobOnly(sec: Section, persona: string, task: string)
    requires Lower(persona) !in PersonaKeywords
    ensures Score(sec, persona, task) ==
      3 * Hits(SearchText(sec), JobKeywords(task)) + (if |sec.content| > 100 then 1 else 0)
  {
  }

  // ------------------------------------------------------------ filtering

  /** The sections scoring above zero, in input order, with their scores. */
  function Relevant(sections: seq<Tagged>, persona: string, task: string): seq<Scored>
  {
    if sections == [] then []
    else
      var last := sections[|sections| - 1];
      var score := Score(last.section, persona, task);
      Relevant(sections[..|sections| - 1], persona, task) + (if score > 0 then [Scored(last, score)] else [])
  }

  /** A scored section is relevant exactly when it is an input section whose
      score is its computed, positive score. */
  lemma {:induction false} RelevantExactly(sections: seq<Tagged>, persona: string, task: string, x: Scored)
    ensures x in Relevant(sections, persona, task) <==>
      x.item in sections && x.score == Score(x.item.section, persona, task) && x.score > 0
  {
    if x in Relevant(sections, persona, task) {
      RelevantSound(sections, persona, task, x);
    } else if x.item in sections && x.score == Score(x.item.section, persona, task) && x.score > 0 {
      RelevantComplete(sections, persona, task, x);
    }
  }

  lemma {:induction false} RelevantSound(sections: seq<Tagged>, persona: string, task: string, x: Scored)
    requires x in Relevant(sections, persona, task)
    ensures x.item in sections && x.score == Score(x.item.section, persona, task) && x.score > 0
  {
    var init := sections[..|sections| - 1];
    if x in Relevant(init, persona, task) {
      RelevantSound(init, persona, task, x);
      assert x.item in sections by { assert sections == init + [sections[|sections| - 1]]; }
    }
  }

  lemma {:induction false} RelevantComplete(sections: seq<Tagged>, persona: string, task: string, x: Scored)
    requires x.item in sections && x.score == Score(x.item.section, persona, task) && x.score > 0
    ensures x in Relevant(sections, persona, task)
  {
    var init := sections[..|sections| - 1];
    if x.item != sections[|sections| - 1] {
      assert x.item in init by { assert sections == init + [sections[|sections| - 1]]; }
      RelevantComplete(init, persona, task, x);
    }
  }

  // -------------------------------------------------------------- sorting

  /** Non-increasing by score. */
  ghost predicate SortedDesc(s: seq<Scored>)
  {
    forall i, j :: 0 <= i < j < |s| ==> s[i].score >= s[j].score
  }

  /** `x` placed after every element of `s` whose score is at least its own,
      scanning from the end of `s`. */
  function InsertDesc(s: seq<Scored>, x: Scored): seq<Scored>
  {
    if s == [] then [x]
    else if s[|s| - 1].score >= x.score then s + [x]
    else InsertDesc(s[..|s| - 1], x) + [s[|s| - 1]]
  }

  /** A stable sort by descending score (insertion sort). */
  function SortDesc(s: seq<Scored>): seq<Scored>
  {
    if s == [] then [] else InsertDesc(SortDesc(s[..|s| - 1]), s[|s| - 1])
  }

  /** The elements of `s` whose score is `v`, in order. */
  function WithScore(s: seq<Scored>, v: int): seq<Scored>
  {
    if s == [] then []
    else WithScore(s[..|s| - 1], v) + (if s[|s| - 1].score == v then [s[|s| - 1]] else [])
  }

  lemma {:induction false} WithScoreAppend(a: seq<Scored>, b: seq<Scored>, v: int)
    ensures WithScore(a + b, v) == WithScore(a, v) + WithScore(b, v)
    decreases |b|
  {
    if b == [] {
      assert a + b == a;
    } else {
      WithScoreAppend(a, b[..|b| - 1], v);
      assert (a + b)[..|a + b| - 1] == a + b[..|b| - 1];
    }
  }

  lemma {:induction false} InsertDescPermutation(s: seq<Scored>, x: Scored)
    ensures multiset(InsertDesc(s, x)) == multiset(s) + multiset{x}
    decreases |s|
  {
    if s != [] && s[|s| - 1].score < x.score {
      InsertDescPermutation(s[..|s| - 1], x);
      assert s == s[..|s| - 1] + [s[|s| - 1]];
    }
  }

  lemma AppendSorted(s: seq<Scored>, y: Scored)
    requires SortedDesc(s)
    requires forall i :: 0 <= i < |s| ==> s[i].score >= y.score
    ensures SortedDesc(s + [y])
  {
    forall i, j | 0 <= i < j < |s + [y]| ensures (s + [y])[i].score >= (s + [y])[j].score {
      if j < |s| {
        assert (s + [y])[i] == s[i] && (s + [y])[j] == s[j];
      }
    }
  }

  lemma {:induction false} InsertDescSorted(s: seq<Scored>, x: Scored)
    requires SortedDesc(s)
    ensures SortedDesc(InsertDesc(s, x))
    decreases |s|
  {
    if s == [] {
    } else if s[|s| - 1].score >= x.score {
      AppendSorted(s, x);
    } else {
      var init := s[..|s| - 1];
      var last := s[|s| - 1];
      InsertDescSorted(init, x);
      InsertDescPermutation(init, x);
      var r := InsertDesc(init, x);
      forall i | 0 <= i < |r| ensures r[i].score >= last.score {
        assert r[i] in multiset(r);
        if r[i] != x {
          assert r[i] in multiset(init);
          var j :| 0 <= j < |init| && init[j] == r[i];
          assert s[j] == r[i];
        }
      }
      AppendSorted(r, last);
    }
  }

  lemma WithScoreSingle(y: Scored, v: int)
    ensures WithScore([y], v) == if y.score == v then [y] else []
  {
    assert [y][..0] == [];
  }

  lemma {:induction false} InsertDescStable(s: seq<Scored>, x: Scored, v: int)
    ensures WithScore(InsertDesc(s, x), v) == WithScore(s, v) + WithScore([x], v)
    decreases |s|
  {
    if s == [] {
      assert [] + [x] == [x];
    } else if s[|s| - 1].score >= x.score {
      WithScoreAppend(s, [x], v);
    } else {
      var init := s[..|s| - 1];
      var last := s[|s| - 1];
      var r := InsertDesc(init, x);
      assert InsertDesc(s, x) == r + [last];
      InsertDescStable(init, x, v);
      WithScoreAppend(r, [last], v);
      WithScoreAppend(init, [last], v);
      assert s == init + [last];
      WithScoreSingle(x, v);
      WithScoreSingle(last, v);
      if x.score == v {
        assert WithScore([last], v) == [];
      } else {
        assert WithScore([x], v) == [];
      }
    }
  }

  /** The sort yields a non-increasing permutation of its input. */
  lemma {:induction false} SortDescSortedPermutation(s: seq<Scored>)
    ensures SortedDesc(SortDesc(s))
    ensures multiset(SortDesc(s)) == multiset(s)
    decreases |s|
  {
    if s != [] {
      var init := s[..|s| - 1];
      SortDescSortedPermutation(init);
      InsertDescSorted(SortDesc(init), s[|s| - 1]);
      InsertDescPermutation(SortDesc(init), s[|s| - 1]);
      assert s == init + [s[|s| - 1]];
    }
  }

  /** The sort is stable: for every score, the sections with that score come
      out in the order they went in. */
  lemma {:induction false} SortDescStable(s: seq<Scored>, v: int)
    ensures WithScore(SortDesc(s), v) == WithScore(s, v)
    decreases |s|
  {
    if s != [] {
      var init := s[..|s| - 1];
      SortDescStable(init, v);
      InsertDescStable(SortDesc(init), s[|s| - 1], v);
      WithScoreAppend(init, [s[|s| - 1]], v);
      assert s == init + [s[|s| - 1]];
    }
  }

  /** The sort keeps the length and the members of its input. */
  lemma SortDescMembers(s: seq<Scored>)
    ensures |SortDesc(s)| == |s|
    ensures forall x :: x in SortDesc(s) <==> x in s
  {
    SortDescSortedPermutation(s);
    forall x ensures x in SortDesc(s) <==> x in s {
      assert x in SortDesc(s) <==> x in multiset(SortDesc(s));
      assert x in s <==> x in multiset(s);
    }
  }

  /** `x` lands right after the last element scoring at least as much as it:
      at `j` when everything from `j` on scores lower. */
  lemma {:induction false} InsertDescAt(sorted: seq<Scored>, j: nat, x: Scored)
    requires j <= |sorted|
    requires j == 0 || sorted[j - 1].score >= x.score
    requires forall k :: j <= k < |sorted| ==> sorted[k].score < x.score
    ensures InsertDesc(sorted, x) == sorted[..j] + [x] + sorted[j..]
    decreases |sorted|
  {
    if j < |sorted| {
      var init := sorted[..|sorted| - 1];
      InsertDescAt(init, j, x);
      assert init[..j] == sorted[..j];
      assert sorted[j..] == init[j..] + [sorted[|sorted| - 1]];
    } else {
      assert sorted[..j] == sorted && sorted[j..] == [];
    }
  }

  /** One step of insertion sort: `a[i]` moves left into the sorted `a[..i]`
      past every element with a lower score. */
  method InsertLast(a: array<Scored>, i: nat)
    requires i < a.Length
    modifies a
    ensures a[..i + 1] == InsertDesc(old(a[..i]), old(a[i]))
    ensures a[i + 1..] == old(a[i + 1..])
  {
    ghost var sorted := a[..i];
    var x := a[i];
    var j := i;
    while j > 0 && a[j - 1].score < x.score
      invariant 0 <= j <= i
      invariant forall k :: 0 <= k < j ==> a[k] == sorted[k]
      invariant forall k :: j < k <= i ==> a[k] == sorted[k - 1]
      invariant forall k :: i < k < a.Length ==> a[k] == old(a[k])
      invariant forall k :: j <= k < i ==> sorted[k].score < x.score
    {
      a[j] := a[j - 1];
      j := j - 1;
    }
    a[j] := x;
    InsertDescAt(sorted, j, x);
    ghost var r := sorted[..j] + [x] + sorted[j..];
    forall k | 0 <= k <= i
      ensures a[k] == r[k]
    {
      if k > j {
        assert r[k] == sorted[k - 1];
      }
    }
    assert a[..i + 1] == r;
  }

  /** Line 144: `list.sort(key=score, reverse=True)` in place. */
  method SortByScoreDesc(a: array<Scored>)
    modifies a
    ensures a[..] == SortDesc(old(a[..]))
  {
    ghost var input := a[..];
    for i := 0 to a.Length
      invariant a[..i] == SortDesc(input[..i])
      invariant a[i..] == input[i..]
    {
      assert a[i] == input[i];
      InsertLast(a, i);
      assert input[..i + 1][..i] == input[..i];
    }
    assert input[..a.Length] == input;
  }

  // -------------------------------------------------------------- ranking

  /** What `analyze_relevance` returns: the first twenty of the stably
      sorted relevant sections. */
  function Rank(sections: seq<Tagged>, persona: string, task: string): (r: seq<Scored>)
    ensures |r| == Min(MaxRanked, |Relevant(sections, persona, task)|)
    ensures forall x :: x in r ==> x in Relevant(sections, persona, task)
  {
    var relevant := Relevant(sections, persona, task);
    var sorted := SortDesc(relevant);
    SortDescMembers(relevant);
    sorted[..Min(MaxRanked, |sorted|)]
  }

  /** Lines 100-145. */
  method AnalyzeRelevance(sections: seq<Tagged>, persona: string, task: string) returns (ranked: seq<Scored>)
    ensures ranked == Rank(sections, persona, task)
  {
    var jobKeywords := JobKeywords(task);
    var relevant: seq<Scored> := [];
    for i := 0 to |sections|
      invariant relevant == Relevant(sections[..i], persona, task)
    {
      var score := ScoreSection(sections[i].section, persona, jobKeywords);
      if score > 0 {
        relevant := relevant + [Scored(sections[i], score)];
      }
      assert sections[..i + 1][..i] == sections[..i];
    }
    assert sections[..|sections|] == sections;
    var a := new Scored[|relevant|](i requires 0 <= i < |relevant| => relevant[i]);
    assert a[..] == relevant;
    SortByScoreDesc(a);
    ranked := a[..Min(MaxRanked, a.Length)];
  }

  /** At most twenty sections come out, in non-increasing score order; each
      is an input section carrying its own positive score; no section left
      out of the top twenty outscores one kept; and sections of equal score
      keep their input order. */
  lemma RankedOutput(sections: seq<Tagged>, persona: string, task: string)
    ensures var r := Rank(sections, persona, task);
      && |r| == Min(MaxRanked, |Relevant(sections, persona, task)|)
      && |r| <= MaxRanked
      && SortedDesc(r)
      && (forall i :: 0 <= i < |r| ==>
            r[i].item in sections && r[i].score > 0 && r[i].score == Score(r[i].item.section, persona, task))
    ensures var sorted := SortDesc(Relevant(sections, persona, task));
      var r := Rank(sections, persona, task);
      && r <= sorted
      && (forall i, j :: 0 <= i < |r| <= j < |sorted| ==> sorted[j].score <= r[i].score)
      && (forall v :: WithScore(sorted, v) == WithScore(Relevant(sections, persona, task), v))
  {
    var relevant := Relevant(sections, persona, task);
    var sorted := SortDesc(relevant);
    var r := Rank(sections, persona, task);
    SortDescSortedPermutation(relevant);
    forall i | 0 <= i < |r|
      ensures r[i].item in sections && r[i].score > 0 && r[i].score == Score(r[i].item.section, persona, task)
    {
      assert r[i] == sorted[i];
      assert sorted[i] in multiset(relevant);
      RelevantExactly(sections, persona, task, r[i]);
    }
    forall v ensures WithScore(sorted, v) == WithScore(relevant, v) {
      SortDescStable(relevant, v);
    }
  }

  const TripSection := Section("Trip Overview", 1, "This itinerary covers trip activities for the group")
  const IndexSection := Section("Index", 2, "")
  const TripPersona := "Travel Planner"
  const TripTask := "Plan a trip for friends"

  lemma TripSectionScores()
    ensures Score(TripSection, TripPersona, TripTask) > 0
  {
    assert Lower(TripPersona) == "travel planner";
    var text := SearchText(TripSection);
    assert text[..4] == "trip";
    assert OccursAt(text, "trip", 0);
    assert "trip" in PersonaKeywordsFor(TripPersona);
    ScorePositiveIff(TripSection, TripPersona, TripTask);
  }

  lemma TripTaskKeywords()
    ensures forall k :: k in JobKeywords(TripTask) ==> k in TravelJobKeywords + FormsJobKeywords
  {
    assert Lower(TripTask) == "plan a trip for friends";
    NotContainedWithoutFirstChar(Lower(TripTask), "menu");
    NotContainedWithoutFirstChar(Lower(TripTask), "buffet");
  }

  lemma IndexText()
    ensures SearchText(IndexSection) == "index "
  {
  }

  lemma NoKeywordInIndex(keywords: seq<string>)
    requires keywords == PersonaKeywords["travel planner"] || keywords == TravelJobKeywords + FormsJobKeywords
    ensures forall k :: k in keywords ==> !Contains("index ", k)
  {
    forall k | k in keywords ensures !Contains("index ", k) {
      NotContainedWithoutFirstChar("index ", k);
    }
  }

  lemma IndexSectionScoresNothing()
    ensures Score(IndexSection, TripPersona, TripTask) == 0
  {
    IndexText();
    assert Lower(TripPersona) == "travel planner";
    var persona := PersonaKeywordsFor(TripPersona);
    NoKeywordInIndex(persona);
    HitsPositiveIff("index ", persona);
    TripTaskKeywords();
    NoKeywordInIndex(TravelJobKeywords + FormsJobKeywords);
    HitsPositiveIff("index ", JobKeywords(TripTask));
  }

  /** A travel planner planning a trip: a section about the trip scores above
      zero and is the only one ranked, ahead of an unrelated one that is dropped. */
  lemma TripScenario()
    ensures var trip := Tagged("guide.pdf", TripSection);
      var other := Tagged("guide.pdf", IndexSection);
      Rank([other, trip], TripPersona, TripTask) == [Scored(trip, Score(TripSection, TripPersona, TripTask))]
  {
    var trip := Tagged("guide.pdf", TripSection);
    var other := Tagged("guide.pdf", IndexSection);
    TripSectionScores();
    IndexSectionScoresNothing();
    var s := Score(TripSection, TripPersona, TripTask);
    assert [other, trip][..1] == [other];
    assert Relevant([other], TripPersona, TripTask) == [];
    assert Relevant([other, trip], TripPersona, TripTask) == [Scored(trip, s)];
    assert SortDesc([Scored(trip, s)]) == [Scored(trip, s)];
  }
}
