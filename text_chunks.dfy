/** `get_text_chunks`: the extracted text is cut by a character splitter and
    every chunk is wrapped, one to one and in order, in a document whose page
    content is the chunk. The splitter itself is a library component and
    enters the model as a function parameter. */
module TextChunks {

  /** A document handed to the vector store; only its page content is set. */
  datatype Document = Document(pageContent: string)

  /** The settings the splitter is constructed with. Lengths are counted in
      characters (`length_function=len`). */
  datatype SplitterConfig = SplitterConfig(separator: string, chunkSize: nat, chunkOverlap: nat)

  /** The splitter used by `get_text_chunks`. */
  const TextSplitter: SplitterConfig := SplitterConfig("\n", 1000, 200)

  /** `[Document(page_content=chunk) for chunk in chunks]`. */
  function WrapChunks(chunks: seq<string>): (docs: seq<Document>)
    ensures |docs| == |chunks|
    ensures forall i :: 0 <= i < |docs| ==> docs[i].pageContent == chunks[i]
  {
    if chunks == [] then [] else [Document(chunks[0])] + WrapChunks(chunks[1..])
  }

  /** The page content of each document, in order. */
  function PageContents(docs: seq<Document>): (chunks: seq<string>)
    ensures |chunks| == |docs|
    ensures forall i :: 0 <= i < |docs| ==> chunks[i] == docs[i].pageContent
  {
    if docs == [] then [] else [docs[0].pageContent] + PageContents(docs[1..])
  }

  /** Unwrapping the documents gives back the chunks exactly. */
  lemma PageContentsOfWrap(chunks: seq<string>)
    ensures PageContents(WrapChunks(chunks)) == chunks
  {
  }

  /** A document carries nothing but its page content, so wrapping the page
      contents of documents rebuilds those documents. */
  lemma WrapOfPageContents(docs: seq<Document>)
    ensures WrapChunks(PageContents(docs)) == docs
  {
  }

  /** Wrapping a concatenation of chunk lists wraps each part in place. */
  lemma WrapChunksAppend(chunks: seq<string>, more: seq<string>)
    ensures WrapChunks(chunks + more) == WrapChunks(chunks) + WrapChunks(more)
  {
  }

  /** `get_text_chunks(text)`: one document per chunk the configured splitter
      returns for the text, with the same count and order. */
  function GetTextChunks(splitText: (SplitterConfig, string) -> seq<string>, text: string): (docs: seq<Document>)
    ensures PageContents(docs) == splitText(TextSplitter, text)
    ensures |docs| == |splitText(TextSplitter, text)|
  {
    var chunks := splitText(TextSplitter, text);
    PageContentsOfWrap(chunks);
    WrapChunks(chunks)
  }
}
