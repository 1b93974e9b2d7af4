/** What each source client does with a query and with the raw records its provider returns
    (services/research_fetcher.py, `fetch_arxiv_papers`, `fetch_pubmed_papers`, `fetch_scholar_papers`).
    Provider calls are not modelled: their results come in as values. */
module Sources {
  import opened Wrappers
  import opened Strings
  import opened Sequences
  import opened Papers
  import opened Relevance

  const ScholarMaxPapers: nat := 5
  const MaxTitleLength: nat := 500
  const MaxAbstractLength: nat := 2000

  // ---------------------------------------------------------------- query augmentation

  /** `f"autism {query}" if "autism" not in query.lower() else query`. */
  function AugmentQuery(query: string): string
  {
    if Contains(Lower(query), "autism") then query else "autism " + query
  }

  /** The outgoing query always mentions the topic, and a query that already does is sent as it is. */
  lemma AugmentQuerySpec(query: string)
    ensures Contains(Lower(AugmentQuery(query)), "autism")
    ensures Contains(Lower(query), "autism") ==> AugmentQuery(query) == query
    ensures !Contains(Lower(query), "autism") ==> AugmentQuery(query) == "autism " + query
    ensures AugmentQuery(AugmentQuery(query)) == AugmentQuery(query)
  {
    if !Contains(Lower(query), "autism") {
      LowerConcat("autism ", query);
      assert Lower("autism ") == "autism ";
      assert "autism" <= Lower("autism " + query);
    }
  }

  // ---------------------------------------------------------------- arXiv

  /** One `arxiv.Result`; `published` is its date already formatted as text. */
  datatype ArxivResult = ArxivResult(
    title: string, summary: string, pdfUrl: string, published: string, authorNames: seq<string>)

  /** The outcome of a provider call together with the iteration over its results:
      `Raised` when either raised, which the client turns into an empty list. */
  datatype Fetched<T> = Raised | Returned(results: seq<T>)

  function ArxivPaper(r: ArxivResult): Paper
  {
    Paper(r.title, r.summary, r.pdfUrl, r.published, RelevanceScore(r.title, r.summary),
          ArXiv, Some(Join(r.authorNames, ", ")))
  }

  function ArxivPapers(results: seq<ArxivResult>): (papers: seq<Paper>)
    ensures |papers| == |results|
    ensures forall k :: 0 <= k < |results| ==> papers[k] == ArxivPaper(results[k])
  {
    if results == [] then [] else [ArxivPaper(results[0])] + ArxivPapers(results[1..])
  }

  function FetchArxivPapers(response: Fetched<ArxivResult>): seq<Paper>
  {
    match response
    case Raised => []
    case Returned(results) => FilterPapers(ArxivPapers(results))
  }

  /** Every arXiv paper passes the filter, comes from one of the results, and a failure yields nothing. */
  lemma ArxivFetchSpec(response: Fetched<ArxivResult>)
    ensures response.Raised? ==> FetchArxivPapers(response) == []
    ensures forall k :: 0 <= k < |FetchArxivPapers(response)| ==>
      var p := FetchArxivPapers(response)[k];
      && PaperRelated(p) && p.source == ArXiv
      && exists j :: 0 <= j < |response.results| && p == ArxivPaper(response.results[j])
  {
    if response.Returned? {
      var all := ArxivPapers(response.results);
      FilterPapersSpec(all);
      SubsequenceElements(FilterPapers(all), all);
      forall k | 0 <= k < |FetchArxivPapers(response)|
        ensures exists j :: 0 <= j < |response.results| && FetchArxivPapers(response)[k] == ArxivPaper(response.results[j])
      {
        var p := FetchArxivPapers(response)[k];
        assert p in all;
        var j :| 0 <= j < |all| && all[j] == p;
        assert p == ArxivPaper(response.results[j]);
      }
    }
  }

  // ---------------------------------------------------------------- PubMed

  /** One MEDLINE record: the tags the client reads, each possibly absent. */
  datatype MedlineRecord = MedlineRecord(
    ti: Option<string>, ab: Option<string>, pmid: Option<string>, dp: Option<string>, au: Option<seq<string>>)

  /** The PubMed exchange: the id list of the search and the records fetched for it. */
  datatype PubMedResponse = PubMedRaised | PubMedResponse(idList: seq<string>, records: seq<MedlineRecord>)

  function PubMedAuthor(au: Option<seq<string>>): string
  {
    if au.Some? && au.value != [] then au.value[0] else "Unknown"
  }

  /** The paper built from a record that has an abstract. */
  function PubMedPaper(rec: MedlineRecord): Paper
    requires rec.ab.Some?
  {
    var title := rec.ti.GetOr("No title available");
    var abstractText := rec.ab.GetOr("No abstract available");
    Paper(title, abstractText, "https://pubmed.ncbi.nlm.nih.gov/" + rec.pmid.GetOr("") + "/",
          rec.dp.GetOr("Date not available"), RelevanceScore(title, abstractText),
          PubMed, Some(PubMedAuthor(rec.au)))
  }

  /** The papers the loop over the records appends, in record order. */
  function PubMedPapers(records: seq<MedlineRecord>): seq<Paper>
  {
    if records == [] then []
    else
      var last := records[|records| - 1];
      PubMedPapers(records[..|records| - 1]) + (if last.ab.Some? then [PubMedPaper(last)] else [])
  }

  predicate FromPubMedRecord(p: Paper, rec: MedlineRecord)
  {
    && rec.ab.Some?
    && p.title == rec.ti.GetOr("No title available")
    && p.abstractText == rec.ab.value
    && p.url == "https://pubmed.ncbi.nlm.nih.gov/" + rec.pmid.GetOr("") + "/"
    && p.publicationDate == rec.dp.GetOr("Date not available")
    && p.authors == Some(if rec.au.Some? && rec.au.value != [] then rec.au.value[0] else "Unknown")
    && p.source == PubMed
    && p.relevanceScore == RelevanceScore(p.title, p.abstractText)
  }

  /** The paper built from a record meets the description of a paper from that record. */
  lemma PubMedPaperFrom(rec: MedlineRecord)
    requires rec.ab.Some?
    ensures FromPubMedRecord(PubMedPaper(rec), rec)
  {
  }

  /** Normalisation splits over concatenation: each record is handled on its own. */
  lemma {:induction false} PubMedPapersAppend(a: seq<MedlineRecord>, b: seq<MedlineRecord>)
    ensures PubMedPapers(a + b) == PubMedPapers(a) + PubMedPapers(b)
    decreases |b|
  {
    if b == [] {
      assert a + b == a;
    } else {
      var b' := b[..|b| - 1];
      assert (a + b)[..|a + b| - 1] == a + b';
      assert (a + b)[|a + b| - 1] == b[|b| - 1];
      PubMedPapersAppend(a, b');
    }
  }

  /** Only records with an abstract give a paper; every such record gives exactly its paper, whose
      author is the first `AU` entry or "Unknown". */
  lemma {:induction false} PubMedPapersSpec(records: seq<MedlineRecord>)
    ensures |PubMedPapers(records)| <= |records|
    ensures forall k :: 0 <= k < |PubMedPapers(records)| ==>
      exists j :: 0 <= j < |records| && FromPubMedRecord(PubMedPapers(records)[k], records[j])
    ensures forall j :: 0 <= j < |records| && records[j].ab.Some? ==> PubMedPaper(records[j]) in PubMedPapers(records)
    ensures (forall j :: 0 <= j < |records| ==> records[j].ab.None?) ==> PubMedPapers(records) == []
  {
    if records != [] {
      var init := records[..|records| - 1];
      var last := records[|records| - 1];
      PubMedPapersSpec(init);
      var ps := PubMedPapers(records);
      forall k | 0 <= k < |ps| ensures exists j :: 0 <= j < |records| && FromPubMedRecord(ps[k], records[j]) {
        if k < |PubMedPapers(init)| {
          var j :| 0 <= j < |init| && FromPubMedRecord(PubMedPapers(init)[k], init[j]);
          assert records[j] == init[j];
        } else {
          assert ps[k] == PubMedPaper(last);
          PubMedPaperFrom(last);
        }
      }
      forall j | 0 <= j < |records| && records[j].ab.Some? ensures PubMedPaper(records[j]) in ps {
        if j < |init| {
          assert records[j] == init[j];
        }
      }
      if forall j :: 0 <= j < |records| ==> records[j].ab.None? {
        assert forall j :: 0 <= j < |init| ==> init[j] == records[j];
      }
    }
  }

  /** The `for record in records` loop of `fetch_pubmed_papers`. */
  method NormalisePubMedRecords(records: seq<MedlineRecord>) returns (papers: seq<Paper>)
    ensures papers == PubMedPapers(records)
  {
    papers := [];
    var i := 0;
    while i < |records|
      invariant 0 <= i <= |records|
      invariant papers == PubMedPapers(records[..i])
    {
      var rec := records[i];
      assert records[..i + 1][..i] == records[..i];
      if rec.ab.Some? {
        var title := rec.ti.GetOr("No title available");
        var abstractText := rec.ab.GetOr("No abstract available");
        var score := CalculateRelevanceScore(title, abstractText);
        var paper := Paper(title, abstractText, "https://pubmed.ncbi.nlm.nih.gov/" + rec.pmid.GetOr("") + "/",
                           rec.dp.GetOr("Date not available"), score, PubMed, Some(PubMedAuthor(rec.au)));
        papers := papers + [paper];
      }
      i := i + 1;
    }
    assert records[..i] == records;
  }

  function FetchPubMedPapers(response: PubMedResponse): seq<Paper>
  {
    match response
    case PubMedRaised => []
    case PubMedResponse(ids, records) => if ids == [] then [] else FilterPapers(PubMedPapers(records))
  }

  /** Every PubMed paper passes the filter and comes from a record with an abstract;
      a failure or an empty id list yields nothing. */
  lemma PubMedFetchSpec(response: PubMedResponse)
    ensures response.PubMedRaised? || response.idList == [] ==> FetchPubMedPapers(response) == []
    ensures forall k :: 0 <= k < |FetchPubMedPapers(response)| ==>
      var p := FetchPubMedPapers(response)[k];
      && PaperRelated(p)
      && exists j :: 0 <= j < |response.records| && FromPubMedRecord(p, response.records[j])
  {
    if response.PubMedResponse? && response.idList != [] {
      var all := PubMedPapers(response.records);
      PubMedPapersSpec(response.records);
      FilterPapersSpec(all);
      SubsequenceElements(FilterPapers(all), all);
      forall k | 0 <= k < |FetchPubMedPapers(response)|
        ensures exists j :: 0 <= j < |response.records| && FromPubMedRecord(FetchPubMedPapers(response)[k], response.records[j])
      {
        var p := FetchPubMedPapers(response)[k];
        assert p in all;
        var m :| 0 <= m < |all| && all[m] == p;
      }
    }
  }

  // ---------------------------------------------------------------- Google Scholar

  /** The `author` entry of a `bib`: absent, a list of names, or any other value (already `str()`-ed). */
  datatype AuthorField = NoAuthor | AuthorList(names: seq<string>) | AuthorValue(text: string)

  /** The `bib` entry of a result; `BibNotDict` is a value that is not a dictionary. The text fields
      hold `str()` of whatever the provider put there. */
  datatype Bib = BibNotDict | Bib(title: Option<string>, abstractText: Option<string>,
                                  pubYear: Option<string>, author: AuthorField)

  /** One result of the search iterator; `ResultNotDict` is a value that is not a dictionary and
      `bib == None` a dictionary without a `bib` key. */
  datatype ScholarResult = ResultNotDict | ResultDict(bib: Option<Bib>, pubUrl: Option<string>)

  /** What one call of `next()` on the search iterator does: yield a result, raise
      `StopIteration`, or raise anything else. The end of the sequence also means `StopIteration`. */
  datatype ScholarStep = Next(result: ScholarResult) | Exhausted | Failed

  /** `scholarly.search_pubs` itself raising, or the iterator it returned. */
  datatype ScholarSearch = SearchRaised | SearchResults(steps: seq<ScholarStep>)

  /** The shape checks the loop makes before it reads a result. */
  predicate WellFormed(r: ScholarResult)
  {
    r.ResultDict? && r.bib.Some? && r.bib.value.Bib?
  }

  /** `authors[0] if authors else 'Unknown'` after a non-list author became a one-element list. */
  function ScholarAuthor(a: AuthorField): string
  {
    match a
    case NoAuthor => "Unknown"
    case AuthorList(names) => if names != [] then names[0] else "Unknown"
    case AuthorValue(text) => text
  }

  function ScholarTitle(r: ScholarResult): string
    requires WellFormed(r)
  {
    r.bib.value.title.GetOr("No title available")
  }

  function ScholarAbstract(r: ScholarResult): string
    requires WellFormed(r)
  {
    r.bib.value.abstractText.GetOr("No abstract available")
  }

  /** The paper stored for a well-formed result: truncated text, scored on the untruncated text. */
  function ScholarPaper(r: ScholarResult): Paper
    requires WellFormed(r)
  {
    var bib := r.bib.value;
    var title := ScholarTitle(r);
    var abstractText := ScholarAbstract(r);
    Paper(Take(title, MaxTitleLength), Take(abstractText, MaxAbstractLength), r.pubUrl.GetOr(""),
          bib.pubYear.GetOr("Year not available"), RelevanceScore(title, abstractText),
          GoogleScholar, Some(ScholarAuthor(bib.author)))
  }

  /** The papers the `for i in range(SCHOLAR_MAX_PAPERS)` loop collects when `remaining` iterations are left. */
  function ScholarPapers(steps: seq<ScholarStep>, remaining: nat): seq<Paper>
  {
    if remaining == 0 || steps == [] then []
    else match steps[0]
      case Exhausted => []
      case Failed => ScholarPapers(steps[1..], remaining - 1)
      case Next(r) => (if WellFormed(r) then [ScholarPaper(r)] else []) + ScholarPapers(steps[1..], remaining - 1)
  }

  /** How many times that loop calls `next()`. */
  function Examined(steps: seq<ScholarStep>, remaining: nat): (n: nat)
    ensures n <= remaining && (remaining > 0 ==> n >= 1)
  {
    if remaining == 0 then 0
    else if steps == [] || steps[0].Exhausted? then 1
    else 1 + Examined(steps[1..], remaining - 1)
  }

  /** Stored titles and abstracts respect the length limits, and no more papers than iterations. */
  lemma {:induction false} ScholarBounds(steps: seq<ScholarStep>, remaining: nat)
    ensures |ScholarPapers(steps, remaining)| <= remaining
    ensures forall k :: 0 <= k < |ScholarPapers(steps, remaining)| ==>
      var p := ScholarPapers(steps, remaining)[k];
      |p.title| <= MaxTitleLength && |p.abstractText| <= MaxAbstractLength && p.source == GoogleScholar
  {
    if remaining > 0 && steps != [] && !steps[0].Exhausted? {
      ScholarBounds(steps[1..], remaining - 1);
    }
  }

  /** Only the steps the loop examines matter: at most `remaining` of them, and none after a stop. */
  lemma {:induction false} ScholarExaminesPrefix(steps: seq<ScholarStep>, remaining: nat)
    ensures Examined(steps, remaining) <= remaining
    ensures ScholarPapers(steps, remaining) == ScholarPapers(steps[..Min(|steps|, Examined(steps, remaining))], remaining)
  {
    if remaining > 0 && steps != [] {
      var n := Examined(steps, remaining);
      var pre := steps[..Min(|steps|, n)];
      match steps[0]
      case Exhausted => {
        assert pre == [Exhausted];
      }
      case _ => {
        ScholarExaminesPrefix(steps[1..], remaining - 1);
        assert pre[0] == steps[0];
        assert pre[1..] == steps[1..][..Min(|steps[1..]|, Examined(steps[1..], remaining - 1))];
      }
    }
  }

  function Min(a: nat, b: nat): nat
  {
    if a <= b then a else b
  }

  /** A well-formed result among the examined steps is never lost, whatever malformed records or
      failures come before it; and every stored paper comes from such a result. */
  lemma {:induction false} ScholarKeepsWellFormed(steps: seq<ScholarStep>, remaining: nat)
    ensures forall j :: (0 <= j < Min(|steps|, Examined(steps, remaining)) && steps[j].Next? && WellFormed(steps[j].result))
                        ==> ScholarPaper(steps[j].result) in ScholarPapers(steps, remaining)
    ensures forall p :: p in ScholarPapers(steps, remaining) ==>
      exists j :: 0 <= j < Min(|steps|, Examined(steps, remaining)) && steps[j].Next? && WellFormed(steps[j].result)
                  && p == ScholarPaper(steps[j].result)
  {
    if remaining > 0 && steps != [] && !steps[0].Exhausted? {
      var rest := steps[1..];
      ScholarKeepsWellFormed(rest, remaining - 1);
      var n := Min(|steps|, Examined(steps, remaining));
      assert n == 1 + Min(|rest|, Examined(rest, remaining - 1));
      forall j | 0 <= j < n && steps[j].Next? && WellFormed(steps[j].result)
        ensures ScholarPaper(steps[j].result) in ScholarPapers(steps, remaining)
      {
        if j > 0 {
          assert steps[j] == rest[j - 1];
        }
      }
      forall p | p in ScholarPapers(steps, remaining)
        ensures exists j :: 0 <= j < n && steps[j].Next? && WellFormed(steps[j].result) && p == ScholarPaper(steps[j].result)
      {
        if p in ScholarPapers(rest, remaining - 1) {
          var j :| 0 <= j < n - 1 && rest[j].Next? && WellFormed(rest[j].result) && p == ScholarPaper(rest[j].result);
          assert steps[j + 1] == rest[j];
        } else {
          assert steps[0].Next? && WellFormed(steps[0].result) && p == ScholarPaper(steps[0].result);
        }
      }
    }
  }

  /** One iteration of the Scholar loop that does not stop it: one more `next()` call, and the
      paper of that step, if any, followed by the papers of the later steps. */
  lemma ScholarIteration(steps: seq<ScholarStep>, i: nat)
    requires i < |steps| && i < ScholarMaxPapers && !steps[i].Exhausted?
    ensures Examined(steps[i..], ScholarMaxPapers - i) == 1 + Examined(steps[i + 1..], ScholarMaxPapers - i - 1)
    ensures (steps[i].Failed? || (steps[i].Next? && !WellFormed(steps[i].result))) ==>
      ScholarPapers(steps[i..], ScholarMaxPapers - i) == ScholarPapers(steps[i + 1..], ScholarMaxPapers - i - 1)
    ensures steps[i].Next? && WellFormed(steps[i].result) ==>
      ScholarPapers(steps[i..], ScholarMaxPapers - i)
      == [ScholarPaper(steps[i].result)] + ScholarPapers(steps[i + 1..], ScholarMaxPapers - i - 1)
  {
    SuffixTail(steps, i);
    assert steps[i..][0] == steps[i];
    if steps[i].Next? && !WellFormed(steps[i].result) {
      assert ScholarPapers(steps[i..], ScholarMaxPapers - i) == [] + ScholarPapers(steps[i + 1..], ScholarMaxPapers - i - 1);
    }
  }

  /** What a stored paper keeps of a well-formed result: the title cut to at most 500 characters and
      the abstract to at most 2000 (each a prefix of the original, whole when it is short enough), the
      fallbacks for absent fields, the score of the untruncated text, and the first author. */
  predicate StoredFrom(p: Paper, r: ScholarResult)
    requires WellFormed(r)
  {
    var title := ScholarTitle(r);
    var abstractText := ScholarAbstract(r);
    && p.title <= title && |p.title| == Min(|title|, MaxTitleLength)
    && p.abstractText <= abstractText && |p.abstractText| == Min(|abstractText|, MaxAbstractLength)
    && p.url == r.pubUrl.GetOr("")
    && p.publicationDate == r.bib.value.pubYear.GetOr("Year not available")
    && p.relevanceScore == RelevanceScore(title, abstractText)
    && p.source == GoogleScholar
    && p.authors == Some(ScholarAuthor(r.bib.value.author))
  }

  /** `ScholarPaper` is the one paper stored from a result. */
  lemma ScholarPaperStored(r: ScholarResult, p: Paper)
    requires WellFormed(r)
    ensures StoredFrom(ScholarPaper(r), r)
    ensures StoredFrom(p, r) ==> p == ScholarPaper(r)
  {
    if StoredFrom(p, r) {
      assert p.title == ScholarTitle(r)[..|p.title|];
      assert p.abstractText == ScholarAbstract(r)[..|p.abstractText|];
    }
  }

  /** The body of the Scholar loop for one well-formed result: the `Paper` it builds. */
  method NormaliseScholarResult(result: ScholarResult) returns (paper: Paper)
    requires WellFormed(result)
    ensures StoredFrom(paper, result)
  {
    var bib := result.bib.value;
    var title := bib.title.GetOr("No title available");
    var abstractText := bib.abstractText.GetOr("No abstract available");
    var score := CalculateRelevanceScore(title, abstractText);
    paper := Paper(Take(title, MaxTitleLength), Take(abstractText, MaxAbstractLength),
                   result.pubUrl.GetOr(""), bib.pubYear.GetOr("Year not available"), score,
                   GoogleScholar, Some(ScholarAuthor(bib.author)));
  }

  /** The `for i in range(SCHOLAR_MAX_PAPERS)` loop of `fetch_scholar_papers`; `pauses` counts the
      `time.sleep(interval)` calls made between results. */
  method NormaliseScholarResults(steps: seq<ScholarStep>) returns (papers: seq<Paper>, pauses: nat)
    ensures papers == ScholarPapers(steps, ScholarMaxPapers)
    ensures pauses == Examined(steps, ScholarMaxPapers) - 1
  {
    papers := [];
    pauses := 0;
    var i := 0;
    while i < ScholarMaxPapers
      invariant 0 <= i <= ScholarMaxPapers && i <= |steps|
      invariant papers + ScholarPapers(steps[i..], ScholarMaxPapers - i) == ScholarPapers(steps, ScholarMaxPapers)
      invariant Examined(steps, ScholarMaxPapers) == i + Examined(steps[i..], ScholarMaxPapers - i)
      invariant pauses == if i == 0 then 0 else i - 1
      decreases ScholarMaxPapers - i
    {
      if i > 0 {
        pauses := pauses + 1;
      }
      if i == |steps| {
        break;
      }
      match steps[i] {
        case Exhausted =>
          break;
        case Failed =>
          ScholarIteration(steps, i);
        case Next(result) =>
          ScholarIteration(steps, i);
          if WellFormed(result) {
            var paper := NormaliseScholarResult(result);
            ScholarPaperStored(result, paper);
            ConcatAssoc(papers, [paper], ScholarPapers(steps[i + 1..], ScholarMaxPapers - i - 1));
            papers := papers + [paper];
          }
      }
      i := i + 1;
    }
  }

  /** The list `fetch_scholar_papers` returns for a search outcome. */
  function ScholarFetchResult(search: ScholarSearch): seq<Paper>
  {
    match search
    case SearchRaised => []
    case SearchResults(steps) => FilterPapers(ScholarPapers(steps, ScholarMaxPapers))
  }

  /** Scholar papers pass the filter, respect the length limits, and number at most five. */
  lemma ScholarFetchSpec(search: ScholarSearch)
    ensures |ScholarFetchResult(search)| <= ScholarMaxPapers
    ensures forall k :: 0 <= k < |ScholarFetchResult(search)| ==>
      var p := ScholarFetchResult(search)[k];
      PaperRelated(p) && |p.title| <= MaxTitleLength && |p.abstractText| <= MaxAbstractLength
  {
    if search.SearchResults? {
      var all := ScholarPapers(search.steps, ScholarMaxPapers);
      ScholarBounds(search.steps, ScholarMaxPapers);
      FilterPapersSpec(all);
      SubsequenceElements(FilterPapers(all), all);
      forall k | 0 <= k < |ScholarFetchResult(search)|
        ensures |ScholarFetchResult(search)[k].title| <= MaxTitleLength
             && |ScholarFetchResult(search)[k].abstractText| <= MaxAbstractLength
      {
        var p := ScholarFetchResult(search)[k];
        assert p in all;
        var m :| 0 <= m < |all| && all[m] == p;
      }
    }
  }

  /** A title of `x`s with the abstract "x" mentions no topic term. */
  lemma PaddingUnrelated(n: nat)
    ensures !IsAutismRelated(Repeat('x', n), "x")
  {
    var stored := SearchText(Repeat('x', n), "x");
    assert forall i :: 0 <= i < |stored| ==> stored[i] == 'x' || stored[i] == ' ';
    forall t | t in Terms ensures !Contains(stored, t) {
      assert t[0] == 'a' || t[0] == 'n';
      FirstCharAbsent(stored, t);
    }
  }

  /** "autism" after any run of `x`s still scores the top weight. */
  lemma PaddedTermScores(n: nat)
    ensures RelevanceScore(Repeat('x', n) + "autism", "x") == 10
  {
    var padding := Repeat('x', n);
    var title := padding + "autism";
    var full := SearchText(title, "x");
    LowerConcat(title, " x");
    LowerConcat(padding, "autism");
    assert Lower("autism") == "autism";
    assert full[n..n + 6] == "autism";
    OccursImpliesContains(full, "autism", n);
    MaxWeightIsMaximum(Weighted, full);
    assert Present(Weighted, full, 0);
    ScoreRange(title, "x");
  }

  /** The score is taken before truncation and the filter looks after it: a title whose only topic
      term lies past character 500 scores 1.0, yet its stored paper fails the filter and is dropped. */
  lemma TruncatedTermEscapesFilter()
    ensures exists r :: WellFormed(r) && ScholarPaper(r).relevanceScore == 10 && !PaperRelated(ScholarPaper(r))
                        && ScholarFetchResult(SearchResults([Next(r)])) == []
  {
    var padding := Repeat('x', MaxTitleLength);
    var title := padding + "autism";
    var r := ResultDict(Some(Bib(Some(title), Some("x"), None, NoAuthor)), None);
    var p := ScholarPaper(r);
    assert title[..MaxTitleLength] == padding;
    assert p.title == padding && p.abstractText == "x";
    PaddingUnrelated(MaxTitleLength);
    PaddedTermScores(MaxTitleLength);
    assert ScholarPapers([Next(r)], ScholarMaxPapers) == [p];
    assert FilterPapers([p]) == [];
  }
}
