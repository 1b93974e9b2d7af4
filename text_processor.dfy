/** `TextProcessor` (utils/text_processor.py): cleaning text and assembling the context handed to the
    answer pipeline. */
module TextProcessor {
  import opened Wrappers
  import opened Strings
  import opened Papers
  import opened Sequences

  /** The regular-expression class `\w` on `str`: exact for code points below 256; code points from
      256 on that are not whitespace count as word characters. */
  predicate IsWordChar(c: char)
  {
    'a' <= c <= 'z' || 'A' <= c <= 'Z' || '0' <= c <= '9' || c == '_'
    || c == '\U{AA}' || c == '\U{B2}' || c == '\U{B3}' || c == '\U{B5}' || c == '\U{B9}' || c == '\U{BA}'
    || '\U{BC}' <= c <= '\U{BE}' || '\U{C0}' <= c <= '\U{D6}' || '\U{D8}' <= c <= '\U{F6}' || '\U{F8}' <= c <= '\U{FF}'
    || (c >= '\U{100}' && !IsSpace(c))
  }

  /** The characters `[\w\s.,;:()\-'"]` matches, which `clean_text` keeps. */
  predicate IsAllowed(c: char)
  {
    IsWordChar(c) || IsSpace(c) || c in ".,;:()-'\""
  }

  /** `re.sub(r'[^\w\s.,;:()\-\'"]', ' ', text)`. */
  function ReplaceDisallowed(s: string): string
  {
    seq(|s|, i requires 0 <= i < |s| => if IsAllowed(s[i]) then s[i] else ' ')
  }

  /** `clean_text`: the replacement, then `strip()`. */
  function CleanText(s: string): string
  {
    Strip(ReplaceDisallowed(s))
  }

  /** The cleaned text holds only allowed characters, has no whitespace at either end, and is a
      contiguous slice of the replaced text (so it is never longer than the input). */
  lemma CleanTextSpec(s: string)
    ensures var r := CleanText(s);
      && (forall i :: 0 <= i < |r| ==> IsAllowed(r[i]))
      && (r == [] || (!IsSpace(r[0]) && !IsSpace(r[|r| - 1])))
      && |r| <= |s|
      && exists i :: IsInnerSlice(ReplaceDisallowed(s), r, i)
  {
    var t := ReplaceDisallowed(s);
    assert forall c | c in t :: IsAllowed(c);
    StripElements(t);
  }

  /** Cleaning clean text changes nothing. */
  lemma CleanTextIdempotent(s: string)
    ensures CleanText(CleanText(s)) == CleanText(s)
  {
    var r := CleanText(s);
    CleanTextSpec(s);
    assert ReplaceDisallowed(r) == r;
    StripTrimmed(r);
  }

  /** `format_paper`. */
  function FormatPaper(title: string, abstractText: string): string
  {
    "Title: " + CleanText(title) + "\nAbstract: " + CleanText(abstractText)
  }

  /** The formatted paper is the labelled cleaned title and abstract; passing text that is already
      clean gives the same result. */
  lemma FormatPaperSpec(title: string, abstractText: string)
    ensures FormatPaper(title, abstractText) == "Title: " + CleanText(title) + "\nAbstract: " + CleanText(abstractText)
    ensures FormatPaper(CleanText(title), CleanText(abstractText)) == FormatPaper(title, abstractText)
    ensures |FormatPaper(title, abstractText)| <= 18 + |title| + |abstractText|
  {
    CleanTextIdempotent(title);
    CleanTextIdempotent(abstractText);
  }

  // ---------------------------------------------------------------- format_abstract

  /** `[s.strip() for s in pieces if s.strip()]`. */
  function NonEmptyStripped(pieces: seq<string>): seq<string>
  {
    if pieces == [] then []
    else (if Strip(pieces[0]) != "" then [Strip(pieces[0])] else []) + NonEmptyStripped(pieces[1..])
  }

  /** The sentences of an abstract: the non-empty stripped `.`-pieces of the cleaned text. */
  function Sentences(abstractText: string): seq<string>
  {
    NonEmptyStripped(Split(CleanText(abstractText), '.'))
  }

  predicate IsSentence(s: string)
  {
    s != "" && '.' !in s && !IsSpace(s[0]) && !IsSpace(s[|s| - 1])
  }

  /** A stripped piece without a full stop that is not empty is a sentence. */
  lemma StrippedPiece(piece: string)
    requires '.' !in piece && Strip(piece) != ""
    ensures IsSentence(Strip(piece))
  {
    StripElements(piece);
  }

  lemma {:induction false} NonEmptyStrippedSpec(pieces: seq<string>)
    requires forall piece :: piece in pieces ==> '.' !in piece
    ensures forall sentence :: sentence in NonEmptyStripped(pieces) ==> IsSentence(sentence)
    ensures |NonEmptyStripped(pieces)| <= |pieces|
  {
    if pieces != [] {
      assert forall piece :: piece in pieces[1..] ==> piece in pieces;
      NonEmptyStrippedSpec(pieces[1..]);
      if Strip(pieces[0]) != "" {
        StrippedPiece(pieces[0]);
      }
    }
  }

  /** Every sentence is non-empty, contains no full stop, and neither starts nor ends with whitespace. */
  lemma SentencesSpec(abstractText: string)
    ensures forall k :: 0 <= k < |Sentences(abstractText)| ==> IsSentence(Sentences(abstractText)[k])
  {
    var pieces := Split(CleanText(abstractText), '.');
    assert forall piece :: piece in pieces ==> '.' !in piece;
    NonEmptyStrippedSpec(pieces);
  }

  /** The loop's flush test: the joined sentences exceed 100 characters or the sentence equals the last one. */
  predicate Closes(current: seq<string>, last: string)
    requires current != []
  {
    |Join(current, " ")| > 100 || current[|current| - 1] == last
  }

  /** The bullets the loop closes from `rest` on when `current` holds the sentences not yet closed. */
  function GroupFrom(rest: seq<string>, current: seq<string>, last: string): seq<seq<string>>
    decreases |rest|
  {
    if rest == [] then []
    else
      var cur := current + [rest[0]];
      if Closes(cur, last) then [cur] + GroupFrom(rest[1..], [], last)
      else GroupFrom(rest[1..], cur, last)
  }

  function LastOf(sentences: seq<string>): string
  {
    if sentences == [] then "" else sentences[|sentences| - 1]
  }

  /** The sentences grouped into bullets. */
  function Groups(sentences: seq<string>): seq<seq<string>>
  {
    GroupFrom(sentences, [], LastOf(sentences))
  }

  function Flatten(groups: seq<seq<string>>): seq<string>
  {
    if groups == [] then [] else groups[0] + Flatten(groups[1..])
  }

  /** The first `n` sentences of `g` do not yet meet the flush test. */
  predicate OpenAt(g: seq<string>, n: nat, last: string)
    requires 0 < n <= |g|
  {
    !Closes(g[..n], last)
  }

  predicate ProperPrefixesOpen(g: seq<string>, last: string)
  {
    forall n :: 0 < n < |g| ==> OpenAt(g, n, last)
  }

  lemma {:induction false} GroupFromSpec(rest: seq<string>, current: seq<string>, last: string)
    requires rest != [] && rest[|rest| - 1] == last
    requires forall n :: 0 < n <= |current| ==> OpenAt(current, n, last)
    ensures Flatten(GroupFrom(rest, current, last)) == current + rest
    ensures forall k :: 0 <= k < |GroupFrom(rest, current, last)| ==>
      var g := GroupFrom(rest, current, last)[k];
      g != [] && Closes(g, last) && ProperPrefixesOpen(g, last)
    decreases |rest|
  {
    var cur := current + [rest[0]];
    var groups := GroupFrom(rest, current, last);
    forall n | 0 < n < |cur| ensures OpenAt(cur, n, last) {
      assert cur[..n] == current[..n];
      assert OpenAt(current, n, last);
    }
    if Closes(cur, last) {
      assert groups == [cur] + GroupFrom(rest[1..], [], last);
      if rest[1..] == [] {
        assert GroupFrom(rest[1..], [], last) == [];
        assert groups == [cur];
        assert Flatten(groups) == cur + Flatten([]);
      } else {
        GroupFromSpec(rest[1..], [], last);
        assert current + rest == cur + rest[1..];
        forall k | 0 <= k < |groups| ensures var g := groups[k]; g != [] && Closes(g, last) && ProperPrefixesOpen(g, last) {
          if k > 0 { assert groups[k] == GroupFrom(rest[1..], [], last)[k - 1]; }
        }
      }
    } else {
      assert rest[1..] != [];
      assert OpenAt(cur, |cur|, last) by { assert cur[..|cur|] == cur; }
      GroupFromSpec(rest[1..], cur, last);
      assert current + rest == cur + rest[1..];
    }
  }

  /** The bullets partition the sentences in order: each sentence is in exactly one bullet, bullets are
      non-empty, and each bullet closes at the first sentence where the joined text exceeds 100
      characters or the sentence equals the last sentence. */
  lemma GroupsSpec(sentences: seq<string>)
    ensures Flatten(Groups(sentences)) == sentences
    ensures forall k :: 0 <= k < |Groups(sentences)| ==>
      var g := Groups(sentences)[k];
      g != [] && Closes(g, LastOf(sentences)) && ProperPrefixesOpen(g, LastOf(sentences))
    ensures sentences == [] <==> Groups(sentences) == []
  {
    if sentences != [] {
      GroupFromSpec(sentences, [], LastOf(sentences));
    }
  }

  /** The comparison with the last sentence is by value: a sentence equal to the last one closes a
      bullet early. */
  lemma RepeatedLastSentenceClosesEarly()
    ensures Groups(["A", "B", "A"]) == [["A"], ["B", "A"]]
  {
    var ss: seq<string> := ["A", "B", "A"];
    assert LastOf(ss) == "A";
    assert ss[1..] == ["B", "A"] && ss[1..][1..] == ["A"] && ss[1..][1..][1..] == [];
    var a: seq<string> := ["A"];
    var ba: seq<string> := ["B", "A"];
    assert a[1..] == [] && ba[1..] == a;
    assert GroupFrom([], [], "A") == [];
    assert ["B"] + [a[0]] == ba;
    assert Closes(ba, "A");
    assert GroupFrom(a, ["B"], "A") == [ba] + GroupFrom([], [], "A");
    assert Join(["B"], " ") == "B";
    assert !Closes(["B"], "A");
    assert [] + [ba[0]] == ["B"];
    assert GroupFrom(ba, [], "A") == GroupFrom(a, ["B"], "A");
    assert [] + [ss[0]] == a;
    assert Closes(a, "A");
    assert GroupFrom(ss, [], "A") == [["A"]] + [["B", "A"]];
  }

  /** `'- ' + '. '.join(current_point) + '.'`. */
  function Bullet(group: seq<string>): string
  {
    "- " + Join(group, ". ") + "."
  }

  function BulletLines(groups: seq<seq<string>>): seq<string>
  {
    seq(|groups|, k requires 0 <= k < |groups| => Bullet(groups[k]))
  }

  /** What `format_abstract` returns. */
  function FormattedAbstract(abstractText: string): string
  {
    Join(BulletLines(Groups(Sentences(abstractText))), "\n")
  }

  /** One bullet per group, the bullets joined with newlines; every bullet of the result is "- ... .", and a
      bullet keeps any line break inside its sentences; the text is empty exactly when the abstract has no
      sentence. */
  lemma FormattedAbstractSpec(abstractText: string)
    ensures var lines := BulletLines(Groups(Sentences(abstractText)));
      && |lines| == |Groups(Sentences(abstractText))|
      && (forall k :: 0 <= k < |lines| ==> "- " <= lines[k] && lines[k][|lines[k]| - 1] == '.')
    ensures FormattedAbstract(abstractText) == "" <==> Sentences(abstractText) == []
  {
    var ss := Sentences(abstractText);
    GroupsSpec(ss);
    var lines := BulletLines(Groups(ss));
    if ss != [] {
      assert |lines| > 0 && |lines[0]| >= 3;
      if |lines| > 1 {
        assert FormattedAbstract(abstractText) == lines[0] + "\n" + Join(lines[1..], "\n");
      }
    }
  }

  /** `clean_text` and `strip()` keep an inner line break, so one bullet can span two lines of the result. */
  lemma LineBreakStaysInBullet()
    ensures |BulletLines(Groups(Sentences("a\nb.")))| == 1
    ensures FormattedAbstract("a\nb.") == "- " + "a\nb" + "."
  {
    var sentence := "a\nb";
    LineBreakSentences();
    SingleSentence(sentence);
    assert Groups(Sentences("a\nb.")) == [[sentence]];
  }

  /** A lone sentence is a bullet of its own. */
  lemma SingleSentence(sentence: string)
    ensures Groups([sentence]) == [[sentence]]
    ensures BulletLines([[sentence]]) == ["- " + sentence + "."]
    ensures Join(BulletLines([[sentence]]), "\n") == "- " + sentence + "."
  {
    var ss: seq<string> := [sentence];
    assert [] + [ss[0]] == ss;
    assert LastOf(ss) == sentence && ss[1..] == [];
    assert Closes(ss, sentence);
    assert GroupFrom(ss, [], sentence) == [ss] + GroupFrom([], [], sentence);
    assert Join(ss, ". ") == sentence;
    assert Bullet(ss) == "- " + sentence + ".";
    var lines := BulletLines([ss]);
    assert |lines| == 1 && lines[0] == Bullet(ss);
  }

  /** The abstract "a\nb." has the one sentence "a\nb". */
  lemma LineBreakSentences()
    ensures Sentences("a\nb.") == ["a\nb"]
  {
    var text, sentence := "a\nb.", "a\nb";
    LineBreakClean();
    SplitLineBreak();
    TrimmedLineBreak();
    OneSentence(text, sentence);
  }

  lemma TrimmedLineBreak()
    ensures Strip("a\nb") == "a\nb"
  {
    var t := "a\nb";
    assert t[0] == 'a' && t[|t| - 1] == 'b';
    StripTrimmed(t);
  }

  /** A text whose cleaned form splits into one trimmed piece and an empty one has that one sentence. */
  lemma OneSentence(text: string, sentence: string)
    requires Split(CleanText(text), '.') == [sentence, ""]
    requires Strip(sentence) == sentence != ""
    ensures Sentences(text) == [sentence]
  {
    StripTrimmed("");
    KeepsFirstPiece(sentence, "");
  }

  /** Of two pieces, a stripped non-empty one and one that strips to nothing, only the first is kept. */
  lemma KeepsFirstPiece(x: string, y: string)
    requires Strip(x) == x != "" && Strip(y) == ""
    ensures NonEmptyStripped([x, y]) == [x]
  {
    NonEmptyStrippedCons(x, [y]);
    NonEmptyStrippedCons(y, []);
    assert [x] + [y] == [x, y] && [y] + [] == [y];
  }

  lemma NonEmptyStrippedCons(piece: string, rest: seq<string>)
    ensures NonEmptyStripped([piece] + rest)
      == (if Strip(piece) != "" then [Strip(piece)] else []) + NonEmptyStripped(rest)
  {
    assert ([piece] + rest)[1..] == rest;
  }

  lemma LineBreakClean()
    ensures CleanText("a\nb.") == "a\nb."
  {
    var text := "a\nb.";
    assert ReplaceDisallowed(text) == text;
    StripTrimmed(text);
  }

  lemma SplitLineBreak()
    ensures Split("a\nb.", '.') == ["a\nb", ""]
  {
    assert Split("", '.') == [""];
    SplitSeparator("", '.');
    assert ['.'] + "" == ".";
    var r1: seq<string> := ["", ""];
    assert Split(".", '.') == r1;
    SplitOther('b', ".", '.');
    assert ['b'] + "." == "b.";
    var r2: seq<string> := ["b", ""];
    assert ['b'] + r1[0] == "b" && r1[1..] == [""];
    assert [['b'] + r1[0]] + r1[1..] == r2;
    assert Split("b.", '.') == r2;
    SplitOther('\n', "b.", '.');
    assert ['\n'] + "b." == "\nb.";
    var r3: seq<string> := ["\nb", ""];
    assert ['\n'] + r2[0] == "\nb" && r2[1..] == [""];
    assert [['\n'] + r2[0]] + r2[1..] == r3;
    assert Split("\nb.", '.') == r3;
    SplitOther('a', "\nb.", '.');
    assert ['a'] + "\nb." == "a\nb.";
    assert ['a'] + r3[0] == "a\nb" && r3[1..] == [""];
    assert [['a'] + r3[0]] + r3[1..] == ["a\nb", ""];
  }

  lemma BulletLinesCons(g: seq<string>, groups: seq<seq<string>>)
    ensures BulletLines([g] + groups) == [Bullet(g)] + BulletLines(groups)
  {
  }

  /** The loop of `format_abstract` over the sentences: fills `current_point` and closes bullets. */
  method BulletPoints(sentences: seq<string>) returns (bulletPoints: seq<string>)
    ensures bulletPoints == BulletLines(Groups(sentences))
  {
    ghost var last := LastOf(sentences);
    bulletPoints := [];
    var currentPoint: seq<string> := [];
    var i := 0;
    while i < |sentences|
      invariant 0 <= i <= |sentences|
      invariant bulletPoints + BulletLines(GroupFrom(sentences[i..], currentPoint, last)) == BulletLines(Groups(sentences))
    {
      var sentence := sentences[i];
      ghost var before := GroupFrom(sentences[i..], currentPoint, last);
      PrefixSnocSuffix(sentences, i);
      currentPoint := currentPoint + [sentence];
      if |Join(currentPoint, " ")| > 100 || sentence == sentences[|sentences| - 1] {
        ghost var rest := GroupFrom(sentences[i + 1..], [], last);
        assert before == [currentPoint] + rest;
        BulletLinesCons(currentPoint, rest);
        ConcatAssoc(bulletPoints, [Bullet(currentPoint)], BulletLines(rest));
        bulletPoints := bulletPoints + ["- " + Join(currentPoint, ". ") + "."];
        currentPoint := [];
      }
      i := i + 1;
    }
    assert sentences[i..] == [];
    assert GroupFrom(sentences[i..], currentPoint, last) == [];
  }

  /** `format_abstract`: the cleaned abstract cut into sentences, grouped into bullets, one per line. */
  method FormatAbstract(abstractText: string) returns (r: string)
    ensures r == FormattedAbstract(abstractText)
  {
    var cleanAbstract := CleanText(abstractText);
    var sentences := NonEmptyStripped(Split(cleanAbstract, '.'));
    var bulletPoints := BulletPoints(sentences);
    r := Join(bulletPoints, "\n");
  }

  // ---------------------------------------------------------------- create_context

  /** `paper.authors if paper.authors else 'Not specified'`. */
  function AuthorsText(authors: Option<string>): string
  {
    if authors.Some? && authors.value != "" then authors.value else "Not specified"
  }

  /** The header line that opens the block of the paper numbered `number`. */
  function BlockHeader(number: nat): string
  {
    "\nResearch Paper " + NatToString(number) + ":\n"
  }

  /** The title line and the "Key Points:" heading of a block. */
  function BlockIntro(p: Paper): string
  {
    "Title: " + CleanText(p.title) + "\nKey Points:"
  }

  /** The authors line of a block, with its surrounding line breaks. */
  function AuthorsLine(authors: Option<string>): string
  {
    "\n- Authors: " + AuthorsText(authors) + "\n"
  }

  /** The date and source lines and the findings that close a block. */
  function BlockTail(p: Paper, findings: string): string
  {
    "- Publication Date: " + p.publicationDate + "\n- Source: " + SourceName(p.source)
    + "\n\nMain Findings:\n" + findings + "\n"
  }

  /** The lines of a paper's block after its header, given its formatted findings. */
  function BlockBody(p: Paper, findings: string): string
  {
    BlockIntro(p) + AuthorsLine(p.authors) + BlockTail(p, findings)
  }

  /** The block for one paper. */
  function PaperBlock(number: nat, p: Paper): string
  {
    BlockHeader(number) + BlockBody(p, FormattedAbstract(p.abstractText))
  }

  /** `enumerate(xs, 1)` mapped through `f`. */
  function Numbered<T>(f: (nat, T) -> string, xs: seq<T>): seq<string>
  {
    seq(|xs|, k requires 0 <= k < |xs| => f(k + 1, xs[k]))
  }

  lemma NumberedAt<T>(f: (nat, T) -> string, xs: seq<T>, k: nat)
    requires k < |xs|
    ensures Numbered(f, xs)[k] == f(k + 1, xs[k])
  {
  }

  lemma NumberedSnoc<T>(f: (nat, T) -> string, xs: seq<T>, x: T)
    ensures Numbered(f, xs + [x]) == Numbered(f, xs) + [f(|xs| + 1, x)]
  {
    var l, r := Numbered(f, xs + [x]), Numbered(f, xs) + [f(|xs| + 1, x)];
    forall k | 0 <= k < |l| ensures l[k] == r[k] {
      if k < |xs| { assert (xs + [x])[k] == xs[k]; }
    }
  }

  /** One block per paper, numbered from 1. */
  function Blocks(papers: seq<Paper>): seq<string>
  {
    Numbered(PaperBlock, papers)
  }

  /** What `create_context` returns: the rule of fifty `=` comes once, before the joined blocks. */
  function Context(papers: seq<Paper>): string
  {
    "\n" + Repeat('=', 50) + Join(Blocks(papers), "\n")
  }

  /** One block per paper, in order, numbered 1..n with pairwise different numerals; the authors line
      says "Not specified" when the authors are absent or empty; the text opens with the rule. */
  lemma ContextSpec(papers: seq<Paper>)
    ensures |Blocks(papers)| == |papers|
    ensures forall k :: 0 <= k < |papers| ==> BlockHeader(k + 1) <= Blocks(papers)[k]
    ensures forall j, k :: 1 <= j < k <= |papers| ==> BlockHeader(j) != BlockHeader(k)
    ensures forall k :: 0 <= k < |papers| && (papers[k].authors.None? || papers[k].authors.value == "") ==>
      exists i :: OccursAt(Blocks(papers)[k], "\n- Authors: Not specified\n", i)
    ensures forall k :: 0 <= k < |papers| && papers[k].authors.Some? && papers[k].authors.value != "" ==>
      exists i :: OccursAt(Blocks(papers)[k], "\n- Authors: " + papers[k].authors.value + "\n", i)
    ensures "\n" + Repeat('=', 50) <= Context(papers)
    ensures papers == [] ==> Context(papers) == "\n" + Repeat('=', 50)
  {
    forall j, k | 1 <= j < k <= |papers| ensures BlockHeader(j) != BlockHeader(k) {
      HeaderInjective(j, k);
    }
    ContextAuthors(papers);
  }

  /** Each block's authors line names the authors, or says "Not specified" when they are absent or empty. */
  lemma ContextAuthors(papers: seq<Paper>)
    ensures forall k :: 0 <= k < |papers| && (papers[k].authors.None? || papers[k].authors.value == "") ==>
      exists i :: OccursAt(Blocks(papers)[k], "\n- Authors: Not specified\n", i)
    ensures forall k :: 0 <= k < |papers| && papers[k].authors.Some? && papers[k].authors.value != "" ==>
      exists i :: OccursAt(Blocks(papers)[k], "\n- Authors: " + papers[k].authors.value + "\n", i)
  {
    forall k | 0 <= k < |papers| ensures
      && ((papers[k].authors.None? || papers[k].authors.value == "") ==>
            exists i :: OccursAt(Blocks(papers)[k], "\n- Authors: Not specified\n", i))
      && (papers[k].authors.Some? && papers[k].authors.value != "" ==>
            exists i :: OccursAt(Blocks(papers)[k], "\n- Authors: " + papers[k].authors.value + "\n", i))
    {
      BlockAuthorsAt(papers, k);
    }
  }

  /** The block of the paper at index `k` carries that paper's authors line. */
  lemma BlockAuthorsAt(papers: seq<Paper>, k: nat)
    requires k < |papers|
    ensures (papers[k].authors.None? || papers[k].authors.value == "") ==>
      exists i :: OccursAt(Blocks(papers)[k], "\n- Authors: Not specified\n", i)
    ensures papers[k].authors.Some? && papers[k].authors.value != "" ==>
      exists i :: OccursAt(Blocks(papers)[k], "\n- Authors: " + papers[k].authors.value + "\n", i)
  {
    var b, p := Blocks(papers)[k], papers[k];
    NumberedAt(PaperBlock, papers, k);
    assert b == PaperBlock(k + 1, p);
    var i := |BlockHeader(k + 1) + BlockIntro(p)|;
    BlockShowsAuthors(k + 1, p);
    assert OccursAt(b, AuthorsLine(p.authors), i);
    AuthorsLineText(p.authors);
  }

  /** The authors line names the authors, or says "Not specified" when they are absent or empty. */
  lemma AuthorsLineText(authors: Option<string>)
    ensures (authors.None? || authors.value == "") ==> AuthorsLine(authors) == "\n- Authors: Not specified\n"
    ensures authors.Some? && authors.value != "" ==> AuthorsLine(authors) == "\n- Authors: " + authors.value + "\n"
  {
  }

  /** A block carries its paper's authors line. */
  lemma BlockShowsAuthors(number: nat, p: Paper)
    ensures OccursAt(PaperBlock(number, p), AuthorsLine(p.authors), |BlockHeader(number) + BlockIntro(p)|)
  {
    var header, intro, line := BlockHeader(number), BlockIntro(p), AuthorsLine(p.authors);
    var tail := BlockTail(p, FormattedAbstract(p.abstractText));
    ConcatAssoc(header, intro + line, tail);
    ConcatAssoc(header, intro, line);
    OccursInside(header + intro, line, tail);
  }

  lemma HeaderInjective(j: nat, k: nat)
    requires j != k
    ensures BlockHeader(j) != BlockHeader(k)
  {
    NatToStringInjective(j, k);
    HeaderNumeral(j);
    HeaderNumeral(k);
  }

  /** The numeral can be read back out of a header. */
  lemma HeaderNumeral(n: nat)
    ensures BlockHeader(n)[16..|BlockHeader(n)| - 2] == NatToString(n)
  {
  }

  lemma BlockOfFindings(number: nat, p: Paper, findings: string)
    requires findings == FormattedAbstract(p.abstractText)
    ensures BlockHeader(number) + BlockBody(p, findings) == PaperBlock(number, p)
  {
  }

  /** `create_context`: the loop over `enumerate(papers, 1)` that collects the blocks. */
  method CreateContext(papers: seq<Paper>) returns (r: string)
    ensures r == Context(papers)
  {
    var contextParts: seq<string> := [];
    var i := 0;
    while i < |papers|
      invariant 0 <= i <= |papers|
      invariant contextParts == Numbered(PaperBlock, papers[..i])
    {
      var paper := papers[i];
      var findings := FormatAbstract(paper.abstractText);
      var block := BlockHeader(i + 1) + BlockBody(paper, findings);
      BlockOfFindings(i + 1, paper, findings);
      PrefixSnoc(papers, i);
      NumberedSnoc(PaperBlock, papers[..i], paper);
      contextParts := contextParts + [block];
      i := i + 1;
    }
    assert papers[..i] == papers;
    r := "\n" + Repeat('=', 50) + Join(contextParts, "\n");
  }
}
