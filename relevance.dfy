/** The topic filter and the relevance scorer of the research fetcher
    (services/research_fetcher.py, `is_autism_related`, `filter_papers`, `calculate_relevance_score`). */
module Relevance {
  import opened Strings
  import opened Sequences
  import opened Papers

  /** The filter's term set. */
  const Terms: set<string> := {
    "autism", "autistic", "asd", "autism spectrum disorder",
    "asperger", "neurodevelopmental", "neurodivergent"
  }

  /** The scorer's terms with their weights in tenths, in the order of the source's dictionary. */
  const Weighted: seq<(string, nat)> := [
    ("autism", 10), ("autistic", 9), ("asd", 9), ("autism spectrum disorder", 10),
    ("asperger", 8), ("neurodevelopmental", 7), ("neurodivergent", 7)
  ]

  /** The score used when no term occurs: 0.5. */
  const DefaultScore: nat := 5

  /** The text both the filter and the scorer search: `(title + ' ' + abstract).lower()`. */
  function SearchText(title: string, abstractText: string): string
  {
    Lower(title + " " + abstractText)
  }

  predicate IsAutismRelated(title: string, abstractText: string)
  {
    exists t :: t in Terms && Contains(SearchText(title, abstractText), t)
  }

  predicate PaperRelated(p: Paper)
  {
    IsAutismRelated(p.title, p.abstractText)
  }

  /** The comprehension `[p for p in papers if is_autism_related(p.title, p.abstract)]`. */
  function FilterPapers(papers: seq<Paper>): seq<Paper>
  {
    if papers == [] then []
    else (if PaperRelated(papers[0]) then [papers[0]] else []) + FilterPapers(papers[1..])
  }

  /** The filter keeps an order-preserving selection of its input. */
  lemma {:induction false} FilterSubsequence(papers: seq<Paper>)
    ensures IsSubsequence(FilterPapers(papers), papers)
  {
    if papers == [] {
      assert IsSubsequence<Paper>([], []);
    } else {
      var rest := FilterPapers(papers[1..]);
      FilterSubsequence(papers[1..]);
      HeadTail(papers);
      if PaperRelated(papers[0]) {
        SubsequenceCons(papers[0], rest, papers[1..]);
        assert FilterPapers(papers) == [papers[0]] + rest;
      } else {
        SubsequenceSkip(papers[0], rest, papers[1..]);
        assert FilterPapers(papers) == rest;
      }
    }
  }

  /** Each paper the filter keeps is autism-related, as often as the input has it, and no unrelated
      paper is kept. */
  lemma {:induction false} FilterCounts(papers: seq<Paper>)
    ensures forall p :: multiset(FilterPapers(papers))[p] == if PaperRelated(p) then multiset(papers)[p] else 0
  {
    if papers != [] {
      FilterCounts(papers[1..]);
      HeadTail(papers);
    }
  }

  /** The filter keeps, in order, exactly the related papers, each as often as the input has it. */
  lemma FilterPapersSpec(papers: seq<Paper>)
    ensures IsSubsequence(FilterPapers(papers), papers)
    ensures forall i :: 0 <= i < |FilterPapers(papers)| ==> PaperRelated(FilterPapers(papers)[i])
    ensures forall p :: multiset(FilterPapers(papers))[p] == if PaperRelated(p) then multiset(papers)[p] else 0
  {
    FilterSubsequence(papers);
    FilterCounts(papers);
    var r := FilterPapers(papers);
    forall i | 0 <= i < |r| ensures PaperRelated(r[i]) {
      assert r[i] in multiset(r);
    }
  }

  lemma {:induction false} FilterAppend(a: seq<Paper>, b: seq<Paper>)
    ensures FilterPapers(a + b) == FilterPapers(a) + FilterPapers(b)
  {
    if a != [] {
      assert (a + b)[1..] == a[1..] + b;
      FilterAppend(a[1..], b);
    } else {
      assert a + b == b;
    }
  }

  /** A list whose papers all pass the filter comes through it unchanged. */
  lemma {:induction false} FilterKeepsRelated(papers: seq<Paper>)
    requires forall i :: 0 <= i < |papers| ==> PaperRelated(papers[i])
    ensures FilterPapers(papers) == papers
  {
    if papers != [] {
      FilterKeepsRelated(papers[1..]);
    }
  }

  /** Filtering twice is filtering once. */
  lemma FilterIdempotent(papers: seq<Paper>)
    ensures FilterPapers(FilterPapers(papers)) == FilterPapers(papers)
  {
    FilterPapersSpec(papers);
    FilterKeepsRelated(FilterPapers(papers));
  }

  function Max(a: nat, b: nat): nat
  {
    if a >= b then a else b
  }

  /** The largest weight among the entries of `ws` whose term occurs in `text`, 0 when none does. */
  function MaxWeight(ws: seq<(string, nat)>, text: string): nat
  {
    if ws == [] then 0
    else
      var m := MaxWeight(ws[..|ws| - 1], text);
      if Contains(text, ws[|ws| - 1].0) then Max(m, ws[|ws| - 1].1) else m
  }

  /** The score `calculate_relevance_score` returns, as a value. */
  function RelevanceScore(title: string, abstractText: string): nat
  {
    var m := MaxWeight(Weighted, SearchText(title, abstractText));
    if m > 0 then m else DefaultScore
  }

  predicate Present(ws: seq<(string, nat)>, text: string, i: int)
  {
    0 <= i < |ws| && Contains(text, ws[i].0)
  }

  /** `MaxWeight` bounds every present weight and, unless it is 0, is the weight of a present term. */
  lemma {:induction false} MaxWeightIsMaximum(ws: seq<(string, nat)>, text: string)
    ensures forall i :: Present(ws, text, i) ==> ws[i].1 <= MaxWeight(ws, text)
    ensures MaxWeight(ws, text) == 0 || exists i :: Present(ws, text, i) && ws[i].1 == MaxWeight(ws, text)
    ensures (forall i :: 0 <= i < |ws| ==> ws[i].1 > 0) ==>
              (MaxWeight(ws, text) == 0 <==> forall i :: 0 <= i < |ws| ==> !Present(ws, text, i))
  {
    if ws != [] {
      var init := ws[..|ws| - 1];
      MaxWeightIsMaximum(init, text);
      forall i | Present(ws, text, i) && i < |ws| - 1 ensures Present(init, text, i) {
      }
      forall i | Present(init, text, i) ensures Present(ws, text, i) {
      }
    }
  }

  /** The weights that the scorer can return. */
  lemma {:induction false} MaxWeightValues(ws: seq<(string, nat)>, text: string)
    ensures MaxWeight(ws, text) == 0 || exists i :: 0 <= i < |ws| && ws[i].1 == MaxWeight(ws, text)
  {
    MaxWeightIsMaximum(ws, text);
  }

  /** The score is the largest weight of a present term, or 0.5 exactly when no term is present. */
  lemma ScoreIsMaximum(title: string, abstractText: string)
    ensures var text := SearchText(title, abstractText);
      && (forall i :: Present(Weighted, text, i) ==> Weighted[i].1 <= RelevanceScore(title, abstractText))
      && (RelevanceScore(title, abstractText) == DefaultScore <==> forall i :: 0 <= i < |Weighted| ==> !Present(Weighted, text, i))
      && (RelevanceScore(title, abstractText) != DefaultScore ==>
            exists i :: Present(Weighted, text, i) && Weighted[i].1 == RelevanceScore(title, abstractText))
  {
    var text := SearchText(title, abstractText);
    MaxWeightIsMaximum(Weighted, text);
  }

  /** The score is one of 0.5, 0.7, 0.8, 0.9, 1.0, so it lies in (0, 1]. */
  lemma ScoreRange(title: string, abstractText: string)
    ensures RelevanceScore(title, abstractText) in {5, 7, 8, 9, 10}
    ensures 0 < RelevanceScore(title, abstractText) <= 10
  {
    MaxWeightValues(Weighted, SearchText(title, abstractText));
  }

  /** Adding terms never lowers `MaxWeight`. */
  lemma {:induction false} MaxWeightMonotone(ws: seq<(string, nat)>, text: string, text': string)
    requires forall i :: Present(ws, text, i) ==> Present(ws, text', i)
    ensures MaxWeight(ws, text) <= MaxWeight(ws, text')
  {
    if ws != [] {
      var init := ws[..|ws| - 1];
      forall i | Present(init, text, i) ensures Present(init, text', i) {
        assert Present(ws, text, i);
      }
      MaxWeightMonotone(init, text, text');
      assert Present(ws, text, |ws| - 1) ==> Present(ws, text', |ws| - 1);
    }
  }

  /** A text that contains every term another text contains scores at least as high. */
  lemma ScoreMonotone(title: string, abstractText: string, title': string, abstractText': string)
    requires forall t :: t in Terms && Contains(SearchText(title, abstractText), t) ==>
                           Contains(SearchText(title', abstractText'), t)
    ensures RelevanceScore(title, abstractText) <= RelevanceScore(title', abstractText')
  {
    var text, text' := SearchText(title, abstractText), SearchText(title', abstractText');
    forall i | Present(Weighted, text, i) ensures Present(Weighted, text', i) {
      assert Weighted[i].0 in Terms;
    }
    MaxWeightMonotone(Weighted, text, text');
    MaxWeightValues(Weighted, text');
    assert forall i :: 0 <= i < |Weighted| ==> Weighted[i].1 > DefaultScore;
  }

  /** Every filter term is a scorer term. */
  lemma TermIndex(t: string) returns (i: nat)
    requires t in Terms
    ensures i < |Weighted| && Weighted[i].0 == t
  {
    i := if t == "autism" then 0 else if t == "autistic" then 1 else if t == "asd" then 2
      else if t == "autism spectrum disorder" then 3 else if t == "asperger" then 4
      else if t == "neurodevelopmental" then 5 else 6;
  }

  /** The filter and the scorer look for the same terms: a paper passes the filter exactly when
      its score is above the default. */
  lemma RelatedIffScored(title: string, abstractText: string)
    ensures IsAutismRelated(title, abstractText) <==> RelevanceScore(title, abstractText) > DefaultScore
  {
    var text := SearchText(title, abstractText);
    ScoreIsMaximum(title, abstractText);
    MaxWeightValues(Weighted, text);
    if IsAutismRelated(title, abstractText) {
      var t :| t in Terms && Contains(text, t);
      var i := TermIndex(t);
      assert Present(Weighted, text, i);
    } else {
      forall i | 0 <= i < |Weighted| ensures !Present(Weighted, text, i) {
        assert Weighted[i].0 in Terms;
      }
    }
  }

  /** `calculate_relevance_score`: the loop over the weighted terms keeping the running maximum. */
  method CalculateRelevanceScore(title: string, abstractText: string) returns (score: nat)
    ensures score == RelevanceScore(title, abstractText)
  {
    var text := Lower(title + " " + abstractText);
    var best := 0;
    var i := 0;
    while i < |Weighted|
      invariant 0 <= i <= |Weighted|
      invariant best == MaxWeight(Weighted[..i], text)
    {
      var (term, weight) := Weighted[i];
      assert Weighted[..i + 1][..i] == Weighted[..i];
      if Contains(text, term) {
        best := Max(best, weight);
      }
      i := i + 1;
    }
    assert Weighted[..i] == Weighted;
    score := if best > 0 then best else DefaultScore;
  }
}
