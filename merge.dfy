/** The tail of `fetch_all_papers` (services/research_fetcher.py): the candidates of all sources are
    sorted by score, highest first and stable among ties, deduplicated by lower-cased title keeping the
    first occurrence, and cut to ten. The candidates arrive in whatever order the sources completed. */
module Merge {
  import opened Wrappers
  import opened Strings
  import opened Sequences
  import opened Papers
  import opened Relevance

  const MaxResults: nat := 10

  /** `paper.title.lower()`, the deduplication key. */
  function TitleKey(p: Paper): string
  {
    Lower(p.title)
  }

  predicate SortedByScore(s: seq<Paper>)
  {
    forall i, j :: 0 <= i < j < |s| ==> s[i].relevanceScore >= s[j].relevanceScore
  }

  // ---------------------------------------------------------------- the stable sort

  /** Put `p` in front of the first element that does not score more than it. */
  function Insert(p: Paper, s: seq<Paper>): seq<Paper>
  {
    if s == [] || s[0].relevanceScore <= p.relevanceScore then [p] + s
    else [s[0]] + Insert(p, s[1..])
  }

  /** `sorted(papers, key=lambda x: x.relevance_score, reverse=True)`. */
  function SortByScore(papers: seq<Paper>): seq<Paper>
  {
    if papers == [] then [] else Insert(papers[0], SortByScore(papers[1..]))
  }

  /** The papers of `s` that score exactly `v`, in order. */
  function WithScore(s: seq<Paper>, v: nat): seq<Paper>
  {
    if s == [] then [] else (if s[0].relevanceScore == v then [s[0]] else []) + WithScore(s[1..], v)
  }

  /** Inserting adds exactly `p`. */
  lemma {:induction false} InsertPermutes(p: Paper, s: seq<Paper>)
    ensures multiset(Insert(p, s)) == multiset(s) + multiset{p}
  {
    if !(s == [] || s[0].relevanceScore <= p.relevanceScore) {
      InsertPermutes(p, s[1..]);
      HeadTail(s);
    }
  }

  /** Inserting into a descending list keeps it descending. */
  lemma {:induction false} InsertSorted(p: Paper, s: seq<Paper>)
    requires SortedByScore(s)
    ensures SortedByScore(Insert(p, s))
  {
    if s == [] || s[0].relevanceScore <= p.relevanceScore {
      ConsTail(p, s);
    } else {
      var rest := Insert(p, s[1..]);
      InsertSorted(p, s[1..]);
      InsertPermutes(p, s[1..]);
      ConsTail(s[0], rest);
      forall j | 0 <= j < |rest| ensures s[0].relevanceScore >= rest[j].relevanceScore {
        assert rest[j] in multiset(rest);
        if rest[j] != p {
          assert rest[j] in multiset(s[1..]);
        }
      }
    }
  }

  /** Among the papers of `p`'s score, `p` comes first and the others keep their order. */
  lemma {:induction false} InsertStable(p: Paper, s: seq<Paper>, v: nat)
    ensures WithScore(Insert(p, s), v) == (if p.relevanceScore == v then [p] else []) + WithScore(s, v)
  {
    var hp: seq<Paper> := if p.relevanceScore == v then [p] else [];
    if s == [] || s[0].relevanceScore <= p.relevanceScore {
      ConsTail(p, s);
    } else {
      var hs: seq<Paper> := if s[0].relevanceScore == v then [s[0]] else [];
      var inserted := Insert(p, s[1..]);
      ConsTail(s[0], inserted);
      InsertStable(p, s[1..], v);
      assert WithScore(Insert(p, s), v) == hs + (hp + WithScore(s[1..], v));
      assert hp == [] || hs == [];
      ConcatAssoc(hs, hp, WithScore(s[1..], v));
      ConcatAssoc(hp, hs, WithScore(s[1..], v));
      assert hs + hp == hp + hs;
    }
  }

  /** The sort is descending, a permutation, and stable: among papers of equal score it keeps the
      input order. */
  lemma {:induction false} SortSpec(papers: seq<Paper>)
    ensures SortedByScore(SortByScore(papers))
    ensures multiset(SortByScore(papers)) == multiset(papers)
    ensures forall v :: WithScore(SortByScore(papers), v) == WithScore(papers, v)
  {
    if papers != [] {
      SortSpec(papers[1..]);
      InsertSorted(papers[0], SortByScore(papers[1..]));
      InsertPermutes(papers[0], SortByScore(papers[1..]));
      forall v ensures WithScore(SortByScore(papers), v) == WithScore(papers, v) {
        InsertStable(papers[0], SortByScore(papers[1..]), v);
      }
      HeadTail(papers);
    }
  }

  // ---------------------------------------------------------------- which duplicate survives

  /** The first paper of `s` with the given key. */
  function FirstWithKey(s: seq<Paper>, key: string): (r: Option<Paper>)
    ensures r.Some? ==> r.value in s && TitleKey(r.value) == key
    ensures r.None? <==> forall i :: 0 <= i < |s| ==> TitleKey(s[i]) != key
  {
    if s == [] then None
    else if TitleKey(s[0]) == key then Some(s[0])
    else FirstWithKey(s[1..], key)
  }

  /** Among the papers with the given key, the earliest of those with the highest score. */
  function BestOf(papers: seq<Paper>, key: string): Option<Paper>
  {
    if papers == [] then None
    else
      var rest := BestOf(papers[1..], key);
      if TitleKey(papers[0]) != key then rest
      else if rest.Some? && rest.value.relevanceScore > papers[0].relevanceScore then rest
      else Some(papers[0])
  }

  /** `BestOf` finds a paper exactly when some paper has the key. */
  lemma {:induction false} BestOfNone(papers: seq<Paper>, key: string)
    ensures BestOf(papers, key).None? <==> key !in KeySet(papers)
  {
    if papers != [] {
      BestOfNone(papers[1..], key);
      HeadTail(papers);
      KeySetCons(papers[0], papers[1..]);
    }
  }

  /** The paper `BestOf` picks has the key and no other paper with the key beats its score. */
  lemma {:induction false} BestOfMax(papers: seq<Paper>, key: string)
    ensures BestOf(papers, key).Some? ==>
      var b := BestOf(papers, key).value;
      && b in papers && TitleKey(b) == key
      && forall p :: p in papers && TitleKey(p) == key ==> p.relevanceScore <= b.relevanceScore
  {
    if papers != [] {
      BestOfMax(papers[1..], key);
      HeadTail(papers);
      assert forall p :: p in papers ==> p == papers[0] || p in papers[1..];
      var rest := BestOf(papers[1..], key);
      if BestOf(papers, key).Some? {
        var b := BestOf(papers, key).value;
        if TitleKey(papers[0]) != key || (rest.Some? && rest.value.relevanceScore > papers[0].relevanceScore) {
          assert b == rest.value;
        } else {
          assert b == papers[0];
          BestOfNone(papers[1..], key);
          forall p | p in papers[1..] && TitleKey(p) == key ensures p.relevanceScore <= b.relevanceScore {
            assert key in KeySet(papers[1..]);
          }
        }
      }
    }
  }

  /** Every paper with the key before the one `BestOf` picks scores strictly less. */
  lemma {:induction false} BestOfEarliest(papers: seq<Paper>, key: string)
    ensures BestOf(papers, key).Some? ==>
      var b := BestOf(papers, key).value;
      exists i :: 0 <= i < |papers| && papers[i] == b
                  && forall j :: 0 <= j < i && TitleKey(papers[j]) == key ==> papers[j].relevanceScore < b.relevanceScore
  {
    if papers != [] && BestOf(papers, key).Some? {
      var b := BestOf(papers, key).value;
      var rest := BestOf(papers[1..], key);
      if TitleKey(papers[0]) != key || (rest.Some? && rest.value.relevanceScore > papers[0].relevanceScore) {
        BestOfEarliest(papers[1..], key);
        var i :| 0 <= i < |papers[1..]| && papers[1..][i] == b
                 && forall j :: 0 <= j < i && TitleKey(papers[1..][j]) == key ==> papers[1..][j].relevanceScore < b.relevanceScore;
        assert papers[i + 1] == b;
        forall j | 0 <= j < i + 1 && TitleKey(papers[j]) == key ensures papers[j].relevanceScore < b.relevanceScore {
          if j > 0 { assert papers[j] == papers[1..][j - 1]; }
        }
      } else {
        assert papers[0] == b;
      }
    }
  }

  /** Among the papers with the key, `BestOf` picks the earliest of those with the highest score. */
  lemma BestOfSpec(papers: seq<Paper>, key: string)
    ensures BestOf(papers, key).None? <==> key !in KeySet(papers)
    ensures BestOf(papers, key).Some? ==>
      var b := BestOf(papers, key).value;
      && b in papers && TitleKey(b) == key
      && (forall p :: p in papers && TitleKey(p) == key ==> p.relevanceScore <= b.relevanceScore)
      && exists i :: 0 <= i < |papers| && papers[i] == b
                     && forall j :: 0 <= j < i && TitleKey(papers[j]) == key ==> papers[j].relevanceScore < b.relevanceScore
  {
    BestOfNone(papers, key);
    BestOfMax(papers, key);
    BestOfEarliest(papers, key);
  }

  /** After inserting `p` into a sorted list, the first paper with a key is `p` exactly when the
      previous first one with that key, if any, does not score more. */
  lemma {:induction false} InsertFirstWithKey(p: Paper, s: seq<Paper>, key: string)
    requires SortedByScore(s)
    ensures FirstWithKey(Insert(p, s), key) ==
      if TitleKey(p) != key then FirstWithKey(s, key)
      else if FirstWithKey(s, key).Some? && FirstWithKey(s, key).value.relevanceScore > p.relevanceScore
      then FirstWithKey(s, key)
      else Some(p)
  {
    if s == [] || s[0].relevanceScore <= p.relevanceScore {
      ConsTail(p, s);
      if FirstWithKey(s, key).Some? {
        var b := FirstWithKey(s, key).value;
        var i :| 0 <= i < |s| && s[i] == b;
        assert i == 0 || s[0].relevanceScore >= s[i].relevanceScore;
      }
    } else {
      ConsTail(s[0], Insert(p, s[1..]));
      InsertFirstWithKey(p, s[1..], key);
    }
  }

  /** The first paper with a key in the sorted list is the best paper with that key. */
  lemma {:induction false} SortFirstWithKey(papers: seq<Paper>, key: string)
    ensures FirstWithKey(SortByScore(papers), key) == BestOf(papers, key)
  {
    if papers != [] {
      SortFirstWithKey(papers[1..], key);
      SortSpec(papers[1..]);
      InsertFirstWithKey(papers[0], SortByScore(papers[1..]), key);
    }
  }

  // ---------------------------------------------------------------- deduplication

  /** The loop over the sorted list that keeps a paper when its key is not in `seen` yet. */
  function KeepFirst(s: seq<Paper>, seen: set<string>): seq<Paper>
  {
    if s == [] then []
    else if TitleKey(s[0]) in seen then KeepFirst(s[1..], seen)
    else [s[0]] + KeepFirst(s[1..], seen + {TitleKey(s[0])})
  }

  predicate DistinctKeys(s: seq<Paper>)
  {
    forall i, j :: 0 <= i < j < |s| ==> TitleKey(s[i]) != TitleKey(s[j])
  }

  /** The lower-cased titles occurring in `s`. */
  function KeySet(s: seq<Paper>): set<string>
  {
    set p | p in s :: TitleKey(p)
  }

  lemma KeySetCons(x: Paper, s: seq<Paper>)
    ensures KeySet([x] + s) == {TitleKey(x)} + KeySet(s)
  {
  }

  lemma {:induction false} KeepFirstSubsequence(s: seq<Paper>, seen: set<string>)
    ensures IsSubsequence(KeepFirst(s, seen), s)
  {
    if s == [] {
      assert IsSubsequence<Paper>([], []);
    } else {
      var k := TitleKey(s[0]);
      HeadTail(s);
      if k in seen {
        KeepFirstSubsequence(s[1..], seen);
        SubsequenceSkip(s[0], KeepFirst(s[1..], seen), s[1..]);
      } else {
        KeepFirstSubsequence(s[1..], seen + {k});
        SubsequenceCons(s[0], KeepFirst(s[1..], seen + {k}), s[1..]);
      }
    }
  }

  /** Each kept paper has a key outside `seen` and is the first paper of `s` with that key. */
  lemma {:induction false} KeepFirstKeys(s: seq<Paper>, seen: set<string>)
    ensures forall p :: p in KeepFirst(s, seen) ==> TitleKey(p) !in seen && FirstWithKey(s, TitleKey(p)) == Some(p)
  {
    if s != [] {
      var k := TitleKey(s[0]);
      if k in seen {
        KeepFirstKeys(s[1..], seen);
      } else {
        KeepFirstKeys(s[1..], seen + {k});
      }
    }
  }

  lemma {:induction false} KeepFirstDistinct(s: seq<Paper>, seen: set<string>)
    ensures DistinctKeys(KeepFirst(s, seen))
  {
    if s != [] {
      var k := TitleKey(s[0]);
      if k in seen {
        KeepFirstDistinct(s[1..], seen);
      } else {
        var rest := KeepFirst(s[1..], seen + {k});
        var r := [s[0]] + rest;
        KeepFirstDistinct(s[1..], seen + {k});
        KeepFirstKeys(s[1..], seen + {k});
        forall i, j | 0 <= i < j < |r| ensures TitleKey(r[i]) != TitleKey(r[j]) {
          assert r[j] == rest[j - 1] && r[j] in rest;
          if i > 0 { assert r[i] == rest[i - 1]; }
        }
      }
    }
  }

  /** The kept keys are exactly the keys of `s` outside `seen`. */
  lemma {:induction false} KeepFirstCovers(s: seq<Paper>, seen: set<string>)
    ensures KeySet(KeepFirst(s, seen)) == KeySet(s) - seen
  {
    if s == [] {
      assert KeySet(s) == {};
    } else {
      var k := TitleKey(s[0]);
      HeadTail(s);
      KeySetCons(s[0], s[1..]);
      if k in seen {
        KeepFirstCovers(s[1..], seen);
      } else {
        KeepFirstCovers(s[1..], seen + {k});
        KeySetCons(s[0], KeepFirst(s[1..], seen + {k}));
      }
    }
  }

  /** Deduplication keeps an order-preserving selection with distinct keys outside `seen`, a paper
      for every key of `s` outside `seen`, and for each key the first paper that has it. */
  lemma KeepFirstSpec(s: seq<Paper>, seen: set<string>)
    ensures IsSubsequence(KeepFirst(s, seen), s)
    ensures DistinctKeys(KeepFirst(s, seen))
    ensures forall p :: p in KeepFirst(s, seen) ==> TitleKey(p) !in seen && FirstWithKey(s, TitleKey(p)) == Some(p)
    ensures KeySet(KeepFirst(s, seen)) == KeySet(s) - seen
  {
    KeepFirstSubsequence(s, seen);
    KeepFirstKeys(s, seen);
    KeepFirstDistinct(s, seen);
    KeepFirstCovers(s, seen);
  }

  lemma {:induction false} SubsequenceSorted(r: seq<Paper>, s: seq<Paper>)
    requires IsSubsequence(r, s) && SortedByScore(s)
    ensures SortedByScore(r)
    decreases |s|
  {
    if r != [] {
      if r[0] == s[0] && IsSubsequence(r[1..], s[1..]) {
        SubsequenceSorted(r[1..], s[1..]);
        SubsequenceElements(r[1..], s[1..]);
        forall i, j | 0 <= i < j < |r| ensures r[i].relevanceScore >= r[j].relevanceScore {
          assert r[j] in r[1..];
          if i > 0 { assert r[i] == r[1..][i - 1] && r[j] == r[1..][j - 1]; }
        }
      } else {
        SubsequenceSorted(r, s[1..]);
      }
    }
  }

  // ---------------------------------------------------------------- the merge

  /** `unique_papers`: the candidates sorted and deduplicated. */
  function Deduped(all: seq<Paper>): seq<Paper>
  {
    KeepFirst(SortByScore(all), {})
  }

  /** What `fetch_all_papers` returns for the candidate list `all`. */
  function Merged(all: seq<Paper>): seq<Paper>
  {
    Take(Deduped(all), MaxResults)
  }

  /** The deduplicated sorted list has distinct keys and is still sorted. */
  lemma DedupedOrdered(all: seq<Paper>)
    ensures DistinctKeys(Deduped(all))
    ensures SortedByScore(Deduped(all))
  {
    SortSpec(all);
    KeepFirstSpec(SortByScore(all), {});
    SubsequenceSorted(KeepFirst(SortByScore(all), {}), SortByScore(all));
  }

  /** Each paper the deduplication keeps is a candidate and the best one with its key. */
  lemma DedupedKeepsBest(all: seq<Paper>)
    ensures forall p :: p in Deduped(all) ==> p in all && BestOf(all, TitleKey(p)) == Some(p)
  {
    var sorted := SortByScore(all);
    SortSpec(all);
    KeepFirstKeys(sorted, {});
    forall p | p in Deduped(all) ensures p in all && BestOf(all, TitleKey(p)) == Some(p) {
      SortFirstWithKey(all, TitleKey(p));
      assert p in multiset(sorted);
    }
  }

  /** Every key of the candidates survives the deduplication. */
  lemma DedupedCoversKeys(all: seq<Paper>)
    ensures KeySet(Deduped(all)) == KeySet(all)
  {
    var sorted := SortByScore(all);
    SortSpec(all);
    KeepFirstCovers(sorted, {});
    assert forall p :: p in sorted <==> p in all by {
      forall p ensures p in sorted <==> p in all {
        assert p in sorted <==> p in multiset(sorted);
        assert p in all <==> p in multiset(all);
      }
    }
    assert KeySet(sorted) == KeySet(all);
  }

  /** The cut to ten drops a title only when ten papers are kept, each scoring at least as much as
      the best paper with the dropped title. */
  lemma MergedKeepsTop(all: seq<Paper>)
    ensures forall key :: key in KeySet(all) && key !in KeySet(Merged(all)) ==>
      && |Merged(all)| == MaxResults
      && BestOf(all, key).Some?
      && forall p :: p in Merged(all) ==> BestOf(all, key).value.relevanceScore <= p.relevanceScore
  {
    var u := Deduped(all);
    var r := Merged(all);
    DedupedOrdered(all);
    DedupedKeepsBest(all);
    DedupedCoversKeys(all);
    assert r == u[..|r|];
    forall key | key in KeySet(all) && key !in KeySet(r)
      ensures |r| == MaxResults && BestOf(all, key).Some?
      ensures forall p :: p in r ==> BestOf(all, key).value.relevanceScore <= p.relevanceScore
    {
      assert key in KeySet(u);
      var q :| q in u && TitleKey(q) == key;
      var j :| 0 <= j < |u| && u[j] == q;
      assert q !in r;
      assert BestOf(all, key) == Some(q);
      PrefixOutscores(u, |r|, j);
    }
  }

  /** In a descending list, every paper of a prefix scores at least as much as any paper after it. */
  lemma PrefixOutscores(u: seq<Paper>, n: nat, j: nat)
    requires SortedByScore(u) && n <= j < |u|
    ensures forall p :: p in u[..n] ==> u[j].relevanceScore <= p.relevanceScore
  {
    forall p | p in u[..n] ensures u[j].relevanceScore <= p.relevanceScore {
      var i :| 0 <= i < n && u[..n][i] == p;
      assert u[i] == p;
    }
  }

  /** The merged list has at most ten papers with pairwise distinct lower-cased titles, highest score
      first, each one taken from the candidates; for each title it keeps the highest-scoring candidate,
      the earliest one among equal scores; and when it has fewer than ten papers, no title is missing. */
  lemma MergedSpec(all: seq<Paper>)
    ensures |Merged(all)| <= MaxResults
    ensures DistinctKeys(Merged(all))
    ensures SortedByScore(Merged(all))
    ensures forall p :: p in Merged(all) ==> p in all && BestOf(all, TitleKey(p)) == Some(p)
    ensures KeySet(Merged(all)) <= KeySet(all)
    ensures |Merged(all)| < MaxResults ==> KeySet(Merged(all)) == KeySet(all)
    ensures forall key :: key in KeySet(all) && key !in KeySet(Merged(all)) ==>
      && |Merged(all)| == MaxResults
      && BestOf(all, key).Some?
      && forall p :: p in Merged(all) ==> BestOf(all, key).value.relevanceScore <= p.relevanceScore
  {
    MergedKeepsTop(all);
    var u := Deduped(all);
    var r := Merged(all);
    DedupedOrdered(all);
    DedupedKeepsBest(all);
    DedupedCoversKeys(all);
    assert r == u[..|r|];
    assert forall p :: p in r ==> p in u;
    if |r| < MaxResults {
      assert r == u;
    }
  }

  /** The `for paper in sorted(...)` loop with its `seen_titles` set, then `unique_papers[:10]`. */
  method MergeCandidates(all: seq<Paper>) returns (top: seq<Paper>)
    ensures top == Merged(all)
  {
    var sorted := SortByScore(all);
    var seen: set<string> := {};
    var unique: seq<Paper> := [];
    var i := 0;
    while i < |sorted|
      invariant 0 <= i <= |sorted|
      invariant unique + KeepFirst(sorted[i..], seen) == KeepFirst(sorted, {})
    {
      var paper := sorted[i];
      var key := Lower(paper.title);
      SuffixTail(sorted, i);
      if key !in seen {
        seen := seen + {key};
        unique := unique + [paper];
      }
      i := i + 1;
    }
    top := Take(unique, MaxResults);
  }

  // ---------------------------------------------------------------- collecting the sources

  /** What a source's future yields: its list, or an exception. */
  datatype SourceOutcome = Completed(papers: seq<Paper>) | Crashed

  /** `all_papers`: the lists of the sources that completed, in completion order. */
  function Candidates(outcomes: seq<SourceOutcome>): seq<Paper>
  {
    if outcomes == [] then []
    else (if outcomes[0].Completed? then outcomes[0].papers else []) + Candidates(outcomes[1..])
  }

  function FetchAllPapers(outcomes: seq<SourceOutcome>): seq<Paper>
  {
    Merged(Candidates(outcomes))
  }

  /** Every candidate comes from a source that completed. */
  lemma {:induction false} CandidatesFromCompleted(outcomes: seq<SourceOutcome>)
    ensures forall p :: p in Candidates(outcomes) ==>
      exists k :: 0 <= k < |outcomes| && outcomes[k].Completed? && p in outcomes[k].papers
  {
    if outcomes != [] {
      CandidatesFromCompleted(outcomes[1..]);
      forall p | p in Candidates(outcomes)
        ensures exists k :: 0 <= k < |outcomes| && outcomes[k].Completed? && p in outcomes[k].papers
      {
        if !(outcomes[0].Completed? && p in outcomes[0].papers) {
          assert p in Candidates(outcomes[1..]);
          var k :| 0 <= k < |outcomes[1..]| && outcomes[1..][k].Completed? && p in outcomes[1..][k].papers;
          assert outcomes[k + 1] == outcomes[1..][k];
        }
      }
    }
  }

  /** Every paper of a completed source is a candidate, whatever the other sources did. */
  lemma {:induction false} CompletedAreCandidates(outcomes: seq<SourceOutcome>)
    ensures forall k, p :: 0 <= k < |outcomes| && outcomes[k].Completed? && p in outcomes[k].papers ==>
      p in Candidates(outcomes)
  {
    if outcomes != [] {
      CompletedAreCandidates(outcomes[1..]);
      forall k, p | 0 < k < |outcomes| && outcomes[k].Completed? && p in outcomes[k].papers
        ensures p in Candidates(outcomes)
      {
        assert outcomes[1..][k - 1] == outcomes[k];
      }
    }
  }

  /** With every source crashed there are no candidates. */
  lemma {:induction false} CrashedGiveNothing(outcomes: seq<SourceOutcome>)
    ensures (forall k :: 0 <= k < |outcomes| ==> outcomes[k].Crashed?) ==> Candidates(outcomes) == []
  {
    if outcomes != [] && forall k :: 0 <= k < |outcomes| ==> outcomes[k].Crashed? {
      assert forall k :: 0 <= k < |outcomes[1..]| ==> outcomes[1..][k] == outcomes[k + 1];
      CrashedGiveNothing(outcomes[1..]);
    }
  }

  /** The candidates are exactly the papers of the sources that completed: a crashed source adds
      nothing, and the others still count. */
  lemma CandidatesSpec(outcomes: seq<SourceOutcome>)
    ensures (forall k :: 0 <= k < |outcomes| ==> outcomes[k].Crashed?) ==> Candidates(outcomes) == []
    ensures forall p :: p in Candidates(outcomes) ==>
      exists k :: 0 <= k < |outcomes| && outcomes[k].Completed? && p in outcomes[k].papers
    ensures forall k, p :: 0 <= k < |outcomes| && outcomes[k].Completed? && p in outcomes[k].papers ==>
      p in Candidates(outcomes)
  {
    CrashedGiveNothing(outcomes);
    CandidatesFromCompleted(outcomes);
    CompletedAreCandidates(outcomes);
  }

  /** A crashed source contributes nothing and does not stop the others: when fewer than ten papers
      come back, every title a completed source returned is among them. If every completed source
      returned only papers that pass the filter, so does the merge; if all sources crash the result is empty. */
  lemma FetchAllSpec(outcomes: seq<SourceOutcome>)
    ensures (forall k :: 0 <= k < |outcomes| ==> outcomes[k].Crashed?) ==> FetchAllPapers(outcomes) == []
    ensures |FetchAllPapers(outcomes)| < MaxResults ==>
      forall k, p :: 0 <= k < |outcomes| && outcomes[k].Completed? && p in outcomes[k].papers ==>
        TitleKey(p) in KeySet(FetchAllPapers(outcomes))
    ensures (forall k, p :: 0 <= k < |outcomes| && outcomes[k].Completed? && p in outcomes[k].papers ==> PaperRelated(p)) ==>
            forall p :: p in FetchAllPapers(outcomes) ==> PaperRelated(p)
    ensures |FetchAllPapers(outcomes)| <= MaxResults
  {
    CandidatesSpec(outcomes);
    MergedSpec(Candidates(outcomes));
    if forall k, p :: 0 <= k < |outcomes| && outcomes[k].Completed? && p in outcomes[k].papers ==> PaperRelated(p) {
      forall p | p in FetchAllPapers(outcomes) ensures PaperRelated(p) {
        assert p in Candidates(outcomes);
      }
    }
    if |FetchAllPapers(outcomes)| < MaxResults {
      forall k, p | 0 <= k < |outcomes| && outcomes[k].Completed? && p in outcomes[k].papers
        ensures TitleKey(p) in KeySet(FetchAllPapers(outcomes))
      {
        assert TitleKey(p) in KeySet(Candidates(outcomes));
      }
    }
    if outcomes != [] && forall k :: 0 <= k < |outcomes| ==> outcomes[k].Crashed? {
      assert Candidates(outcomes) == [];
    }
  }
}
