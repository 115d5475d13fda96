/** The text that `get_pdf_text` builds from the layout the recogniser returns
    for each uploaded document: for every line of every page of every
    document, in that order, the line's words joined by single spaces and
    followed by a newline. */
module PdfText {
  import opened Seqs
  import opened PyStr

  /** One recognised word; only its text is used. */
  datatype Word = Word(text: string)

  /** One recognised line: its words in reading order. */
  datatype Line = Line(words: seq<Word>)

  /** One recognised page: its lines in reading order. */
  datatype Page = Page(lines: seq<Line>)

  /** The result of recognising one document: its pages in order. The call to
      the recognition service that produces it is outside the model. */
  type Recognition = seq<Page>

  /** `[word.text for word in line.words]`. */
  function WordTexts(words: seq<Word>): seq<string>
  {
    seq(|words|, i requires 0 <= i < |words| => words[i].text)
  }

  /** `" ".join(...)` of a line's words: the line's content without its newline. */
  function LineContent(line: Line): string
  {
    Join(" ", WordTexts(line.words))
  }

  /** What one line adds to the accumulated text. */
  function LineText(line: Line): (r: string)
    ensures |r| > 0 && r[|r| - 1] == '\n'
    ensures r[..|r| - 1] == LineContent(line)
  {
    LineContent(line) + "\n"
  }

  /** What one page adds: the text of each of its lines, in order. */
  function PageText(page: Page): string
  {
    FlatMap(page.lines, LineText)
  }

  /** What one document adds: the text of each of its pages, in order. */
  function RecognitionText(pages: Recognition): string
  {
    FlatMap(pages, PageText)
  }

  /** The specification of `get_pdf_text`: the text of each document, in order. */
  function Flatten(docs: seq<Recognition>): string
  {
    FlatMap(docs, RecognitionText)
  }

  // ---------------------------------------------------------------------------
  // An independent reading of the same text: list every line first, then
  // serialise the flat list.

  function PageLines(page: Page): seq<Line>
  {
    page.lines
  }

  function RecognitionLines(pages: Recognition): seq<Line>
  {
    FlatMap(pages, PageLines)
  }

  /** Every line of every page of every document, in document, page, line order. */
  function AllLines(docs: seq<Recognition>): seq<Line>
  {
    FlatMap(docs, RecognitionLines)
  }

  /** A flat list of lines written out one after another, each terminated by a newline. */
  function Serialize(lines: seq<Line>): string
  {
    FlatMap(lines, LineText)
  }

  /** The content of each line, in order. */
  function LineContents(lines: seq<Line>): (r: seq<string>)
    ensures |r| == |lines|
    ensures forall i :: 0 <= i < |lines| ==> r[i] == LineContent(lines[i])
  {
    if lines == [] then [] else [LineContent(lines[0])] + LineContents(lines[1..])
  }

  /** No word of any of the lines contains the character c. */
  ghost predicate WordsAvoid(c: char, lines: seq<Line>)
  {
    forall i, j :: 0 <= i < |lines| && 0 <= j < |lines[i].words| ==> c !in lines[i].words[j].text
  }

  /** No document has a page with a line. */
  ghost predicate NoLines(docs: seq<Recognition>)
  {
    forall i, j :: 0 <= i < |docs| && 0 <= j < |docs[i]| ==> docs[i][j].lines == []
  }

  // ---------------------------------------------------------------------------
  // The accumulator loop of get_pdf_text.

  /** `get_pdf_text`, given the recognition result of each document in upload
      order: three nested loops append each line's text to `text`. */
  method GetPdfText(pdfDocs: seq<Recognition>) returns (text: string)
    ensures text == Flatten(pdfDocs)
  {
    text := "";
    for d := 0 to |pdfDocs|
      invariant text == Flatten(pdfDocs[..d])
    {
      var result := pdfDocs[d];
      ghost var beforeDoc := text;
      for p := 0 to |result|
        invariant text == beforeDoc + RecognitionText(result[..p])
      {
        var page := result[p];
        ghost var beforePage := text;
        for l := 0 to |page.lines|
          invariant text == beforePage + FlatMap(page.lines[..l], LineText)
        {
          var line := page.lines[l];
          text := text + (Join(" ", WordTexts(line.words)) + "\n");
          FlatMapPrefixStep(page.lines, l, LineText);
          ConcatAssoc(beforePage, FlatMap(page.lines[..l], LineText), LineText(line));
        }
        assert page.lines[..|page.lines|] == page.lines;
        FlatMapPrefixStep(result, p, PageText);
        ConcatAssoc(beforeDoc, RecognitionText(result[..p]), PageText(page));
      }
      assert result[..|result|] == result;
      FlatMapPrefixStep(pdfDocs, d, RecognitionText);
    }
    assert pdfDocs[..|pdfDocs|] == pdfDocs;
  }

  // ---------------------------------------------------------------------------
  // Properties of the text.

  /** The nested flattening is the serialisation of the flat list of all lines. */
  lemma FlattenIsSerialize(docs: seq<Recognition>)
    ensures Flatten(docs) == Serialize(AllLines(docs))
  {
    forall pages: Recognition
      ensures RecognitionText(pages) == FlatMap(RecognitionLines(pages), LineText)
    {
      FlatMapFlatMap(pages, PageLines, LineText, PageText);
    }
    FlatMapFlatMap(docs, RecognitionLines, LineText, RecognitionText);
  }

  /** Processing a batch in two parts gives the text of the first part followed
      by the text of the second: earlier text is only ever appended to. */
  lemma FlattenAppend(docs: seq<Recognition>, more: seq<Recognition>)
    ensures Flatten(docs + more) == Flatten(docs) + Flatten(more)
  {
    FlatMapAppend(docs, more, RecognitionText);
  }

  /** The text is empty exactly when no document has a page with a line. */
  lemma FlattenEmptyIff(docs: seq<Recognition>)
    ensures Flatten(docs) == "" <==> NoLines(docs)
  {
    forall pages: Recognition
      ensures RecognitionText(pages) == "" <==> forall j :: 0 <= j < |pages| ==> pages[j].lines == []
    {
      forall page: Page ensures PageText(page) == "" <==> page.lines == [] {
        FlatMapEmptyIff(page.lines, LineText);
        if page.lines != [] {
          assert LineText(page.lines[0]) != "";
        }
      }
      FlatMapEmptyIff(pages, PageText);
    }
    FlatMapEmptyIff(docs, RecognitionText);
  }

  /** A serialisation is empty exactly when there are no lines; otherwise it
      ends with a newline. */
  lemma SerializeShape(lines: seq<Line>)
    ensures Serialize(lines) == "" <==> lines == []
    ensures lines != [] ==> Serialize(lines)[|Serialize(lines)| - 1] == '\n'
  {
  }

  /** `get_pdf_text` returns either the empty string or a string ending in a newline. */
  lemma FlattenEndsWithNewline(docs: seq<Recognition>)
    ensures Flatten(docs) == "" || Flatten(docs)[|Flatten(docs)| - 1] == '\n'
  {
    FlattenIsSerialize(docs);
    SerializeShape(AllLines(docs));
  }

  /** A line contributes a lone newline exactly when it has no words, or one
      word whose text is empty. */
  lemma LineTextNewlineOnly(line: Line)
    ensures LineText(line) == "\n" <==> |line.words| == 0 || (|line.words| == 1 && line.words[0].text == "")
  {
  }

  /** A line's content has no newline when none of its words has one. */
  lemma LineContentAvoids(c: char, line: Line)
    requires c != ' '
    requires forall j :: 0 <= j < |line.words| ==> c !in line.words[j].text
    ensures c !in LineContent(line)
  {
    JoinAvoids(c, " ", WordTexts(line.words));
  }

  /** Splitting a serialisation at newlines gives back each line's content in
      order, then the empty piece after the final newline. */
  lemma {:induction false} SerializeThenSplit(lines: seq<Line>)
    requires WordsAvoid('\n', lines)
    ensures Split('\n', Serialize(lines)) == LineContents(lines) + [""]
    decreases |lines|
  {
    if lines != [] {
      var line, rest := lines[0], lines[1..];
      assert WordsAvoid('\n', rest) by {
        forall i, j | 0 <= i < |rest| && 0 <= j < |rest[i].words|
          ensures '\n' !in rest[i].words[j].text
        {
          assert rest[i] == lines[i + 1];
        }
      }
      SerializeThenSplit(rest);
      assert lines == [line] + rest;
      FlatMapCons(line, rest, LineText);
      ConcatAssoc(LineContent(line), "\n", Serialize(rest));
      LineContentAvoids('\n', line);
      SplitAfter('\n', LineContent(line), Serialize(rest));
      ConcatAssoc([LineContent(line)], LineContents(rest), [""]);
    }
  }

  /** Splitting the text of `get_pdf_text` at newlines recovers the content of
      every line of every page of every document, in order, when no word
      contains a newline. */
  lemma FlattenThenSplit(docs: seq<Recognition>)
    requires WordsAvoid('\n', AllLines(docs))
    ensures Split('\n', Flatten(docs)) == LineContents(AllLines(docs)) + [""]
  {
    FlattenIsSerialize(docs);
    SerializeThenSplit(AllLines(docs));
  }

  /** When no word contains a newline, the text has exactly one newline per line. */
  lemma FlattenNewlineCount(docs: seq<Recognition>)
    requires WordsAvoid('\n', AllLines(docs))
    ensures Count('\n', Flatten(docs)) == |AllLines(docs)|
  {
    FlattenThenSplit(docs);
  }

  /** Splitting a line's content at spaces gives back its words, when the line
      has words and none of them contains a space. */
  lemma LineContentThenSplit(line: Line)
    requires |line.words| > 0
    requires forall j :: 0 <= j < |line.words| ==> ' ' !in line.words[j].text
    ensures Split(' ', LineContent(line)) == WordTexts(line.words)
  {
    JoinThenSplit(' ', WordTexts(line.words));
  }
}
