# Chat with documents: the text pipeline's own logic

The application uploads PDF files, has a recognition service read them,
turns the recognised layout into one text, splits that text into chunks
wrapped as documents for a vector store, and shows a conversation held
over that store. Nearly all of this is delegated to cloud services and
libraries. This project models the three pieces the application
implements itself, and proves what they guarantee:

- **Text flattening** (`get_pdf_text`). Each document's recognition
  result is a sequence of pages, each page a sequence of lines, and each
  line a sequence of words. The text holds one entry per line, in
  document, page, line order: the line's words joined by single spaces,
  then a newline. Module `PdfText` (file `pdf_text.dfy`) gives:
  - `Flatten`, a specification function built from one generic
    concatenate-in-order function (`Seqs.FlatMap`);
  - `GetPdfText`, the three nested accumulator loops, proved to return
    `Flatten`;
  - an independent reading of the same text: list all lines first
    (`AllLines`), then write them out (`Serialize`);
  - lemmas on emptiness, the final newline, composition, newline counts,
    and recovering each line by splitting at newlines.
  `PyStr` (file `pystr.dfy`) models Python's `str.join`, plus `str.split`
  and `str.count` for a one-character separator, which are used to state
  those properties.
- **Chunk wrapping** (`get_text_chunks`). The splitter is a library
  component. It enters the model as a function parameter, together with
  the settings the application gives it: separator `"\n"`, chunk size
  1000, overlap 200, lengths in characters. Each chunk the splitter
  returns is wrapped in exactly one `Document`, in the same order. Module
  `TextChunks`, file `text_chunks.dfy`.
- **Transcript labelling** (`handle_userinput`). History entry `i` is
  written as `"User: " + content` when `i` is even and as
  `"Bot: " + content` when `i` is odd. Module `ChatTranscript`, file
  `chat_transcript.dfy`: a specification function `Render`, the loop
  `HandleUserInput` proved equal to it, and a parser `ParseLine` that
  reads a written line back.

## Model

| member | source | states |
|---|---|---|
| `PdfText.GetPdfText` | app.py:46-55 | The three nested loops leave exactly `Flatten(pdfDocs)` in the accumulator: the text of every document, in upload order. |
| `PdfText.LineText` | app.py:54 | What one line adds is never empty and always ends in `"\n"`. Everything before that newline is the line's words joined by `" "`. |
| `PdfText.LineTextNewlineOnly` | app.py:54 | A line adds a lone `"\n"` if and only if it has no words, or has one word whose text is empty. |
| `PdfText.FlattenIsSerialize` | app.py:48-54 | The nested flattening equals the flat list of all lines (document, then page, then line order) written out one line after another. |
| `PdfText.FlattenAppend` | app.py:47-54 | The text of `docs + more` is the text of `docs` followed by the text of `more`. Earlier text is only appended to, never altered. |
| `PdfText.FlattenEmptyIff` | app.py:47-55 | The result is `""` if and only if no page of any document has a line. This covers no documents, and documents with no pages. |
| `PdfText.FlattenEndsWithNewline` | app.py:54-55 | The result is either empty or ends in `"\n"`. |
| `PdfText.SerializeShape` | app.py:52-54 | Written-out lines are empty if and only if there are no lines. Otherwise the last character is `"\n"`. |
| `PdfText.LineContentAvoids` | app.py:54 | A line's joined words contain no newline when no word contains one. |
| `PdfText.SerializeThenSplit` | app.py:52-54 | Splitting written-out lines at `"\n"` gives each line's joined words, in order, then the empty piece after the final newline. This requires that no word contains a newline. |
| `PdfText.FlattenThenSplit` | app.py:48-54 | `Flatten(docs).split("\n")` recovers the joined words of every line of every page of every document, in order, then `""`. This requires that no word contains a newline. |
| `PdfText.FlattenNewlineCount` | app.py:52-54 | When no word contains `"\n"`, the result has exactly as many `"\n"` as there are lines across all pages of all documents. |
| `PdfText.LineContentThenSplit` | app.py:54 | Take a line that has words, none of which contains a space. Splitting its content at `" "` gives back its word texts, in order. |
| `PdfText.LineContents` | app.py:54 | One content per line, in order. Entry `i` is line `i`'s words joined by `" "`. |
| `PyStr.Join` | app.py:54 | `sep.join(parts)` of a non-empty list has length equal to the parts' total length plus one `sep` between each pair of neighbours. It starts with the first part. |
| `PyStr.JoinEmptyIff` | app.py:54 | With a non-empty separator, the join is `""` if and only if there are no parts, or there is a single empty part. |
| `PyStr.JoinAvoids` | app.py:54 | A character absent from the separator and from every part is absent from the join. |
| `PyStr.JoinThenSplit` | app.py:54 | Splitting a join at its one-character separator gives back the parts. This requires at least one part and that no part contains the separator. |
| `PyStr.Split` | app.py:54 | `s.split(c)` has one piece more than `s` has occurrences of `c`, and no piece contains `c`. |
| `PyStr.SplitThenJoin` | app.py:54 | Joining the pieces of `s.split(c)` with `c` gives back `s`. |
| `Seqs.FlatMapAppend` | app.py:47-54 | Concatenating each element's contribution in order distributes over concatenation of the element lists. |
| `Seqs.FlatMapFlatMap` | app.py:52-54 | Flattening pages into lines and then lines into text equals flattening pages directly into text. |
| `Seqs.FlatMapEmptyIff` | app.py:47-55 | The concatenation is empty if and only if every element contributes nothing. |
| `TextChunks.WrapChunks` | app.py:65 | One `Document` per chunk. The result has as many documents as there are chunks, and document `i`'s page content is chunk `i`. |
| `TextChunks.PageContents` | app.py:65 | One page content per document, in order. |
| `TextChunks.PageContentsOfWrap` | app.py:65 | Unwrapping the documents gives back the chunk list exactly. |
| `TextChunks.WrapOfPageContents` | app.py:65 | Wrapping the page contents of documents rebuilds the same documents, so the wrapping loses nothing and adds nothing. |
| `TextChunks.WrapChunksAppend` | app.py:65 | Wrapping concatenated chunk lists equals concatenating their wrappings. Order is kept. |
| `TextChunks.GetTextChunks` | app.py:57-66 | The page contents of the returned documents are exactly the chunks the splitter returns for the text, with the same count and order. The splitter is configured with `"\n"`, 1000 and 200. |
| `ChatTranscript.Render` | app.py:94-98 | There is one written line per history entry, in order. Line `i` is entry `i`'s content behind the prefix of the role given by `i`'s parity. |
| `ChatTranscript.ParseRenderLine` | app.py:95-98 | A written line reads back as the role of its index and the entry's unchanged content, whatever the content is. |
| `ChatTranscript.RenderLabels` | app.py:94-98 | Line `i` is labelled `User` if and only if `i` is even, and `Bot` if and only if `i` is odd. It carries entry `i`'s content. |
| `ChatTranscript.RenderPrefix` | app.py:94-98 | Writing out a longer history leaves the lines already written for its beginning unchanged. |
| `ChatTranscript.HandleUserInput` | app.py:94-98 | The `enumerate` loop writes exactly `Render(chatHistory)`. |

## Left out

- Uploading to and downloading from blob storage (app.py:33-44, app.py:125-129): network I/O. The model starts from the downloaded documents.
- The recognition call and its polling (app.py:49-50, app.py:120-122): a foreign service. `GetPdfText` takes the recognition result of each document as input. A failing call raises and ends `get_pdf_text` with no text. The model has no counterpart for that failure: it would be a call that never returns.
- The internals of the character splitter (app.py:58-64): library code that is not available. The model takes it as a parameter, records its settings (`TextChunks.TextSplitter`) and assumes nothing about chunk sizes, overlaps or reconstruction. Chunk-size, overlap, empty-input and reconstruction guarantees of the splitter are therefore not stated.
- Embeddings and the vector store (app.py:68-77), the chat model, the conversation memory and the retrieval chain (app.py:79-88, app.py:91-92): foreign calls. `HandleUserInput` takes the history that the chain returns as input.
- ChatTranscript.HandleUserInput: the source writes each line to the page with `st.write` (a UI side effect). The method returns the lines in the order they are written instead.
- ChatTranscript.RenderLabels: the label depends on the index only. Nothing in the code checks that entry `i` really came from the user or the bot, so the model states nothing about message origin.
- The Streamlit page, session state and environment configuration (app.py:15-31, app.py:100-150). The code has no idle/ready guard: `handle_userinput` calls the conversation even before any document was processed. So the model has no conversation state machine, and no rule that queries are rejected before indexing.
- `Document` metadata: `get_text_chunks` sets only `page_content`, so that is the only field modelled.
