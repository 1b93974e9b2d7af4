/** The normalised literature record every source produces (models/paper.py). */
module Papers {
  import opened Wrappers

  /** The three providers; `SourceName` is the string the fetcher stores in `Paper.source`. */
  datatype Source = ArXiv | PubMed | GoogleScholar

  function SourceName(s: Source): string
  {
    match s
    case ArXiv => "arXiv"
    case PubMed => "PubMed"
    case GoogleScholar => "Google Scholar"
  }

  /** One paper. `relevanceScore` is in tenths (the source's 0.5 is 5, its 1.0 is 10). */
  datatype Paper = Paper(
    title: string,
    abstractText: string,
    url: string,
    publicationDate: string,
    relevanceScore: nat,
    source: Source,
    authors: Option<string>)
}
