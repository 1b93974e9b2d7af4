# Research fetcher and text processor, modelled in Dafny

This project models the part of the autism-research assistant that gathers and formats literature.
That part is the research-fetching engine in `services/research_fetcher.py` and the formatter in
`utils/text_processor.py`. Specifically, it models:

- the topic filter and the relevance scorer (`is_autism_related`, `filter_papers`,
  `calculate_relevance_score`);
- the query augmentation every source client applies;
- the per-record normalisation of arXiv, PubMed and Google Scholar results;
- the rate-limit gate `_wait_for_rate_limit` on the fetcher's `_last_request_time` field;
- the retry loop `_make_request_with_retry`;
- the sort, deduplicate and cut-to-ten tail of `fetch_all_papers`;
- `clean_text`, `format_paper`, `format_abstract` and `create_context`.

Provider calls are not modelled. What arXiv, Entrez/MEDLINE and `scholarly` return comes in as datatype
values, including the malformed and failing cases. Every clock reading is a parameter, a sleep is a
returned duration, and a relevance score is a natural number of tenths: the source's 0.5 is 5 and its
1.0 is 10.

Modules, one per file:

| module | what it holds |
|---|---|
| `Wrappers` | `Option` |
| `Sequences` | subsequences, `Take` (a slice `s[:n]`), small sequence identities |
| `Strings` | `lower()` as `Lower`, the `in` test on strings as `Contains`, `split`, `join`, `strip`, whitespace, decimal numerals |
| `Papers` | the `Paper` record of `models/paper.py` and its `source` values |
| `Relevance` | the term sets, the filter, the scorer and its loop |
| `Sources` | query augmentation, the three sources' normalisation and what each fetch returns |
| `Fetcher` | class `ResearchFetcher` with its timestamp field, the gate, the retry loop and the Scholar fetch |
| `Merge` | the stable sort, the deduplication, the cut to ten, and collecting the sources' lists |
| `TextProcessor` | the allowed-character class, `clean_text`, `format_paper`, `format_abstract`, `create_context` |

Notes on the code as written in `services/research_fetcher.py`:

- PubMed requests go through neither the gate nor `_make_request_with_retry`.
- `_make_request_with_retry` is called nowhere in the file. It is modelled as written.
- `_make_request_with_retry` returns `None` after three failures.
- The Scholar fetch repeats the gate inline (services/research_fetcher.py:218-222). The model calls the
  gate there, which has the same effect on the timestamp.
- All paced requests share the one `_last_request_time` field.
- The `"No abstract available"` fallback for PubMed is never used, because a record is only read when
  `AB` is present.

## Model

| member | source | states |
|---|---|---|
| Relevance.FilterSubsequence | services/research_fetcher.py:93-98 | the filtered list is a subsequence of the input: same order, nothing added |
| Relevance.FilterCounts | services/research_fetcher.py:93-98 | each related paper is kept exactly as often as the input holds it; an unrelated paper never appears |
| Relevance.FilterPapersSpec | services/research_fetcher.py:93-98 | `FilterPapers` (`filter_papers`): the filter keeps, in order, exactly the related papers with their multiplicity; every kept paper is related |
| Relevance.FilterAppend | services/research_fetcher.py:93-98 | filtering a concatenation is concatenating the filtered parts |
| Relevance.FilterKeepsRelated | services/research_fetcher.py:93-98 | a list whose papers are all related passes through unchanged |
| Relevance.FilterIdempotent | services/research_fetcher.py:93-98 | filtering twice gives the same list as filtering once |
| Relevance.MaxWeightIsMaximum | services/research_fetcher.py:113-117 | `MaxWeight`: the running maximum bounds every present weight, is 0 only when no term is present, and otherwise is the weight of a present term |
| Relevance.MaxWeightValues | services/research_fetcher.py:113-117 | the running maximum is 0 or one of the listed weights |
| Relevance.ScoreIsMaximum | services/research_fetcher.py:100-119 | `RelevanceScore` (`calculate_relevance_score`): the score bounds every present term's weight and is attained by one; it is 0.5 exactly when no term is present |
| Relevance.ScoreRange | services/research_fetcher.py:103-119 | the score is one of 0.5, 0.7, 0.8, 0.9, 1.0, hence in (0, 1] |
| Relevance.MaxWeightMonotone | services/research_fetcher.py:113-117 | more present terms never lower the running maximum |
| Relevance.ScoreMonotone | services/research_fetcher.py:100-119 | a text containing every term another text contains scores at least as high |
| Relevance.TermIndex | services/research_fetcher.py:82-111 | every term of the filter's set is a key of the scorer's dictionary |
| Relevance.RelatedIffScored | services/research_fetcher.py:80-119 | `IsAutismRelated` (`is_autism_related`) against `RelevanceScore`: a paper passes the filter exactly when its score is above the 0.5 default |
| Relevance.CalculateRelevanceScore | services/research_fetcher.py:100-119 | the loop over the weighted terms returns the maximum present weight, or 0.5 |
| Strings.ContainsIff | services/research_fetcher.py:91 | `Contains`: the `in` test holds exactly when the term occurs at some position of the text |
| Strings.Split | utils/text_processor.py:49 | `split('.')` gives at least one piece, and no piece contains the separator |
| Strings.SplitJoin | utils/text_processor.py:49 | `Split` and `Join`: joining the pieces of `split` with the separator restores the text |
| Strings.Strip | utils/text_processor.py:11 | `strip()` returns a contiguous slice of its argument that neither starts nor ends with whitespace |
| Strings.StripTrimmed | utils/text_processor.py:11 | `strip()` leaves a text without whitespace at its ends unchanged |
| Strings.NatToStringRoundTrip | utils/text_processor.py:26 | `NatToString`: the decimal numeral of the paper's number reads back as that number |
| Strings.NatToStringInjective | utils/text_processor.py:26 | different numbers have different numerals |
| Sources.AugmentQuerySpec | services/research_fetcher.py:126 | `AugmentQuery`: the sent query contains "autism" case-insensitively; a query that already does is sent unchanged, and any other gets "autism " in front; augmenting twice is augmenting once |
| Sources.ArxivPapers | services/research_fetcher.py:135-148 | `ArxivPaper`: one paper per arXiv result, in result order |
| Sources.ArxivFetchSpec | services/research_fetcher.py:122-156 | `FetchArxivPapers` (`fetch_arxiv_papers`): every returned arXiv paper is related and built from one of the results; a failure returns the empty list |
| Sources.PubMedPapersAppend | services/research_fetcher.py:187-201 | each MEDLINE record is normalised independently of the others |
| Sources.PubMedPapersSpec | services/research_fetcher.py:187-201 | `PubMedPapers` and `PubMedPaper`: only records with `AB` give a paper, and every such record gives its paper; the fallbacks are filled in, the URL holding the PMID or "" when it is absent, and the author is the first `AU` entry or "Unknown" when `AU` is absent or empty |
| Sources.NormalisePubMedRecords | services/research_fetcher.py:187-201 | the record loop appends exactly the normalised papers of the records with an abstract, in order |
| Sources.PubMedFetchSpec | services/research_fetcher.py:159-209 | `FetchPubMedPapers` (`fetch_pubmed_papers`): every returned PubMed paper is related and comes from a record with an abstract; a failure or an empty id list returns the empty list |
| Sources.Examined | services/research_fetcher.py:229-274 | `Examined`: the Scholar loop calls `next()` at most five times, and at least once |
| Sources.ScholarBounds | services/research_fetcher.py:229-271 | at most five Scholar papers are collected; stored titles have at most 500 characters and abstracts at most 2000 |
| Sources.ScholarExaminesPrefix | services/research_fetcher.py:229-274 | only the results the loop examines matter: at most five, and none after `StopIteration` |
| Sources.ScholarKeepsWellFormed | services/research_fetcher.py:237-271 | `ScholarPapers`: every well-formed examined result yields its paper, whatever malformed results or errors come before it; every stored paper comes from such a result |
| Sources.ScholarIteration | services/research_fetcher.py:229-277 | a loop pass that does not stop calls `next()` once and adds that result's paper, if it is well-formed, before the later ones |
| Sources.NormaliseScholarResult | services/research_fetcher.py:246-270 | the stored title is the first min(length, 500) characters of the title, so it is whole when it is short enough; the abstract is the same at 2000; the score is computed on the untruncated text; the URL and year fall back to "" and "Year not available"; the author is the first listed author, a non-list author standing for itself, and "Unknown" when the list is empty or absent |
| Sources.ScholarPaperStored | services/research_fetcher.py:262-270 | `ScholarPaper`: the stored paper meets that description, and it is the only paper that does |
| Sources.NormaliseScholarResults | services/research_fetcher.py:225-277 | the loop collects exactly the papers of the well-formed results among those examined, and sleeps once between consecutive `next()` calls |
| Sources.ScholarFetchSpec | services/research_fetcher.py:211-288 | `ScholarFetchResult` (`fetch_scholar_papers`): the Scholar fetch returns at most five related papers, each within the length limits |
| Sources.TruncatedTermEscapesFilter | services/research_fetcher.py:262-283 | the score is taken before truncation but the filter runs after it, so a result scoring 1.0 whose only term lies past character 500 is dropped |
| Fetcher.RateLimitGate | services/research_fetcher.py:53-59 | the gate never asks for a negative sleep; inside the interval it sleeps exactly the rest of the interval, and once the interval has passed it does not sleep; it records the reading after the sleep, which is at least the previous timestamp plus the interval and not before `now` |
| Fetcher.GateAfter | services/research_fetcher.py:53-65 | passing the gate once per attempt moves the timestamp at least one interval per attempt, and to no earlier than the last attempt's clock reading |
| Fetcher.RetryFromSpec | services/research_fetcher.py:61-78 | from any attempt on: the attempts made stay within three, a response is the first `Ok` answer, running out means every remaining attempt failed, and the backoffs are exactly those owed to the 429 answers |
| Fetcher.TooManyWaitsValues | services/research_fetcher.py:70-73 | the 429 waits are 4, 8 or 12 seconds and grow strictly from one to the next |
| Fetcher.RetrySpec | services/research_fetcher.py:61-78 | `RetryFrom`: one to three attempts; a response is returned exactly when some attempt succeeds, and it is the first success; `None` after three failures; each 429 on attempt k costs a wait of (k+1)·2·2 seconds; another error before the last attempt is retried at once |
| Fetcher.ResearchFetcher.constructor | services/research_fetcher.py:29-30 | the timestamp starts at 0 |
| Fetcher.ResearchFetcher.WaitForRateLimit | services/research_fetcher.py:53-59 | sleeps as the gate says and records the post-sleep time, which is at least the interval after the previous timestamp |
| Fetcher.ResearchFetcher.MakeRequestWithRetry | services/research_fetcher.py:53-78 | returns the response, the attempt count and the backoffs the retry specification gives; every attempt made passes the gate once, so the new timestamp is `GateAfter` of the old one over those attempts, the post-sleep reading of the last gate pass, and at least one interval per attempt later |
| Fetcher.ResearchFetcher.FetchScholarPapers | services/research_fetcher.py:211-288 | sends the augmented query, passes the gate once, and returns the filtered Scholar papers with one pause between consecutive results |
| Fetcher.ConsecutiveRequestsArePaced | services/research_fetcher.py:53-59 | two paced requests in a row are recorded at least twice the interval after the earlier timestamp |
| Merge.InsertPermutes | services/research_fetcher.py:315 | inserting into the sorted list adds exactly that paper |
| Merge.InsertSorted | services/research_fetcher.py:315 | inserting into a descending list keeps it descending |
| Merge.InsertStable | services/research_fetcher.py:315 | among papers of equal score, the inserted paper comes first and the others keep their order |
| Merge.SortSpec | services/research_fetcher.py:315 | `SortByScore`: the sort is descending by score, a permutation, and stable: the papers of each score keep their input order |
| Merge.FirstWithKey | services/research_fetcher.py:316-317 | finds a paper of the list with the key, and finds none exactly when no paper has it |
| Merge.BestOfNone | services/research_fetcher.py:311-319 | a best paper exists for a title exactly when some candidate has that lower-cased title |
| Merge.BestOfMax | services/research_fetcher.py:311-319 | the best paper is a candidate with the title, and no candidate with that title scores more |
| Merge.BestOfEarliest | services/research_fetcher.py:311-319 | every candidate with the title that comes before the best paper scores strictly less |
| Merge.BestOfSpec | services/research_fetcher.py:311-319 | `BestOf`: for each title the best paper is the highest-scoring candidate, the earliest among equal scores |
| Merge.InsertFirstWithKey | services/research_fetcher.py:315-317 | after an insertion, the first paper with a key is the inserted one exactly when it has the key and the previous first one does not score more |
| Merge.SortFirstWithKey | services/research_fetcher.py:315-317 | in the sorted list, the first paper with a title is the best paper with that title |
| Merge.KeepFirstSubsequence | services/research_fetcher.py:312-319 | the deduplicated list is a subsequence of the sorted list |
| Merge.KeepFirstKeys | services/research_fetcher.py:312-319 | each kept paper has a title not yet seen and is the first paper with its title |
| Merge.KeepFirstDistinct | services/research_fetcher.py:312-319 | the kept papers have pairwise distinct lower-cased titles |
| Merge.KeepFirstCovers | services/research_fetcher.py:312-319 | every title of the sorted list that was not yet seen is kept |
| Merge.KeepFirstSpec | services/research_fetcher.py:312-319 | `KeepFirst`: the deduplication keeps, in order, the first paper of each unseen title and nothing else |
| Merge.SubsequenceSorted | services/research_fetcher.py:312-319 | a subsequence of a descending list is descending |
| Merge.DedupedOrdered | services/research_fetcher.py:311-319 | `Deduped`: `unique_papers` has distinct titles and is descending by score |
| Merge.DedupedKeepsBest | services/research_fetcher.py:311-319 | each paper of `unique_papers` is a candidate and the best one with its title |
| Merge.DedupedCoversKeys | services/research_fetcher.py:311-319 | every title among the candidates is kept |
| Merge.MergedKeepsTop | services/research_fetcher.py:311-321 | a candidate title missing from the result means ten papers were kept, each scoring at least that title's best candidate |
| Merge.MergedSpec | services/research_fetcher.py:311-321 | `Merged`: at most ten papers with distinct titles, descending by score, each the best candidate with its title; with fewer than ten, every candidate title is present; a title is left out only for ten papers that score at least as high |
| Merge.MergeCandidates | services/research_fetcher.py:311-321 | the `seen_titles` loop over the sorted list followed by `[:10]` computes the merge |
| Merge.CandidatesFromCompleted | services/research_fetcher.py:302-307 | every candidate is a paper of a source that completed |
| Merge.CompletedAreCandidates | services/research_fetcher.py:302-307 | every paper of a source that completed is a candidate, whatever the other sources did |
| Merge.CrashedGiveNothing | services/research_fetcher.py:302-309 | when every source crashes there are no candidates |
| Merge.CandidatesSpec | services/research_fetcher.py:292-309 | `Candidates`: a crashed source adds nothing and the others still count; the candidates are exactly the papers of the sources that completed, as a set |
| Merge.FetchAllSpec | services/research_fetcher.py:290-321 | `FetchAllPapers` (`fetch_all_papers`): all sources crashing gives the empty list; when every completed source returns only related papers, so does the merge; never more than ten; with fewer than ten, the title of every paper of every completed source is present |
| TextProcessor.CleanTextSpec | utils/text_processor.py:7-11 | `CleanText` (`clean_text`): the cleaned text has only allowed characters and no whitespace at either end; it is a slice of the replaced text, so it is never longer than the input |
| TextProcessor.CleanTextIdempotent | utils/text_processor.py:7-11 | cleaning cleaned text changes nothing |
| TextProcessor.FormatPaperSpec | utils/text_processor.py:13-17 | `FormatPaper` (`format_paper`): `format_paper` labels the cleaned title and abstract; passing already cleaned text gives the same result; the length grows by at most the 18 label characters |
| TextProcessor.StrippedPiece | utils/text_processor.py:49 | a non-empty stripped piece without a full stop is a sentence |
| TextProcessor.NonEmptyStrippedSpec | utils/text_processor.py:49 | the comprehension keeps at most one sentence per piece, and each is a sentence |
| TextProcessor.SentencesSpec | utils/text_processor.py:46-49 | `Sentences`: every sentence is non-empty, has no full stop, and neither starts nor ends with whitespace |
| TextProcessor.GroupFromSpec | utils/text_processor.py:52-59 | the bullets closed from any loop state hold the pending sentences and the remaining ones, in order; each bullet closes at its first sentence that meets the flush test |
| TextProcessor.GroupsSpec | utils/text_processor.py:52-59 | `Groups`: the bullets partition the sentences in order; every bullet is non-empty and closes at its first sentence where the joined text exceeds 100 characters or the sentence equals the last one; there are no bullets exactly when there are no sentences |
| TextProcessor.RepeatedLastSentenceClosesEarly | utils/text_processor.py:55-59 | the comparison with the last sentence is by value, so the sentences A, B, A give the bullets [A] and [B, A] |
| TextProcessor.FormattedAbstractSpec | utils/text_processor.py:43-61 | `FormattedAbstract` (`format_abstract`): one bullet per group, joined with newlines; every bullet starts with "- " and ends with "."; a bullet keeps any line break inside its sentences; the result is empty exactly when the abstract has no sentence |
| TextProcessor.LineBreakStaysInBullet | utils/text_processor.py:7-61 | the abstract "a\nb." gives the single bullet "- a\nb.", which spans two lines of the result |
| TextProcessor.BulletPoints | utils/text_processor.py:52-59 | the loop over the sentences produces exactly the bullet lines of the grouping |
| TextProcessor.FormatAbstract | utils/text_processor.py:43-61 | cleaning, splitting, grouping and joining with newlines gives the formatted abstract |
| TextProcessor.ContextSpec | utils/text_processor.py:19-41 | `Context` and `Blocks` (`create_context`): one block per paper, in order, block k opening with the header of number k+1, no two headers alike; block k holds the line "- Authors: Not specified" when paper k's authors are absent or empty and "- Authors: " followed by the authors otherwise; the text opens with the rule of fifty `=` |
| TextProcessor.ContextAuthors | utils/text_processor.py:23-29 | block k of the context holds paper k's authors line: "Not specified" for absent or empty authors, the authors otherwise |
| TextProcessor.BlockAuthorsAt | utils/text_processor.py:23-29 | the same for one index of the list |
| TextProcessor.BlockShowsAuthors | utils/text_processor.py:25-29 | a paper's block carries its authors line right after the title line and the "Key Points:" heading |
| TextProcessor.HeaderInjective | utils/text_processor.py:26 | blocks of different numbers have different headers |
| TextProcessor.HeaderNumeral | utils/text_processor.py:26 | the number can be read back out of a block header |
| TextProcessor.CreateContext | utils/text_processor.py:19-41 | the `enumerate(papers, 1)` loop and the final join produce the context text |

## Left out

- Network calls are not modelled; their results are inputs. This covers `arxiv.Client`, `Entrez.esearch` and `efetch`, `Medline.parse`, `scholarly.search_pubs` and `requests.Session.get`.
- The thread pool, `as_completed` and the `__del__` shutdown are not modelled, because they are concurrency. The merge accepts the sources' lists in any completion order.
- `@lru_cache` on `fetch_arxiv_papers` and `fetch_pubmed_papers` is not modelled. The model covers one call. It does not capture a later call that reuses a cached result, including the empty list a failed fetch returns (services/research_fetcher.py:154-156, :207-209).
- The random user-agent rotation and `_setup_scholarly` are not modelled: neither influences a result.
- The request limits `max_results=10` for arXiv and `retmax=10` for PubMed (services/research_fetcher.py:131, :169) are not modelled: they are sent to the provider, and the model takes whatever results come back.
- `strftime` is not modelled: an arXiv date arrives already formatted as text.
- Floating point is not modelled. Scores are tenths, and the interval and backoffs are exact reals.
- `time.time()` and `time.sleep` are not modelled. Readings are parameters, and sleeps are returned durations. The pacing relies on one assumption about the clock: the reading after a sleep is at least the reading before it plus the sleep. This is the `overshoot >= 0` precondition of `RateLimitGate` and of the methods that call it. Readings taken at the gate are not required to increase.
- The backoff sleep of the retry loop is returned, not performed on the clock. The next attempt's clock reading is an independent parameter.
- Fetcher.ResearchFetcher.FetchScholarPapers: the pauses between Scholar results are counted, not applied to the timestamp, which the source does not update there either.
- Lower-casing and `\w` are exact only below code point 256. Above it, `Lower` leaves characters unchanged and every non-whitespace character counts as a word character.
- Python's `str()` of non-string bib fields is not computed; such fields arrive already converted to text.
- An exception from `str()` or from building the `Paper` inside the Scholar loop is covered only as the `Failed` step.
- `services/model_handler.py` and `app.py` are not part of this model; they are the language-model pipeline and the user interface.
- `models/paper.py` is mirrored as the `Paper` datatype; it has no behaviour of its own.
