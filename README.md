# Documents and batch printing, in Dafny

This project models a small C# program. The program has an abstract
`Documento` with three concrete kinds: `DocumentoTexto`, `DocumentoHTML` and
`DocumentoPDF`. Every document has a title, an author and a creation time.
Each kind adds its own body:

- a text document has a content, and it can count its words;
- an HTML document has markup and a CSS string that only grows;
- a PDF document has a text and a watermark that is overwritten.

`ProcessadorDocumentos.ProcessarLote` prints a list of documents. For each
one it calls its `Imprimir`, then writes a delimiter line.

The project has four modules:

- `Words` (`words.dfy`) models the word counter. `Pieces` splits the content
  at every space, newline and tab; putting the separators back (`Rejoin`)
  gives the content again. `RemoveEmpty` drops the empty pieces. The
  count is proved equal to `RunCount`, an independent definition: the number
  of maximal runs of non-separator characters.
- `Joins` (`joins.dfy`) joins a list of strings with no separator. Both the
  word counter and the CSS accumulation use it.
- `Documents` (`documents.dfy`) holds one datatype value per kind of
  document (`Doc`) and the pure rules over it:
  - `FormattedContent` is `ConteudoFormatado`.
  - `PrintLines` is the lines an `Imprimir` override writes.
  - `BatchOutput` is the lines `ProcessarLote` writes.
  - `WithStyle` and `WithWatermark` are the effect of the two mutators.
  - `ParseHtml` and `ParsePdf` read formatted content back, so formatting
    has an inverse to be checked against.
- `DocumentObjects` (`objects.dfy`) holds one class per concrete kind.
  - Each class's fields are updated in place by `AddStyle` and
    `SetWatermark`. `Snapshot()` reads a class's fields as a `Doc` value.
  - The console is a log of lines. A printing method takes the log and
    returns it with its own lines appended, one `WriteLine` after another.
  - `ProcessBatch` is the `foreach` loop. Its loop invariant ties the log
    to `BatchOutput` of the documents printed so far.
  - The virtual call `doc.Imprimir()` is a `match` on a `DocumentRef`,
    which names the document's kind.
  - `ProcessBatch` takes a ghost list of the documents' values at the start
    of the batch. Its `requires` says only that this list is what the
    references point to, and its `ensures` says what the log becomes.

The creation time is a `Timestamp` parameter of each constructor. It carries
the text that the header line shows for `DataCriacao`.

## Model

| member | source | states |
|---|---|---|
| Words.Pieces | exercicioPOO1-1.cs:51 | splitting at the three separators gives one piece more than there are separators. No piece holds a separator. The first piece is empty exactly when the string is empty or starts with a separator |
| Words.PiecesRejoin | exercicioPOO1-1.cs:51 | putting each separator back between the two pieces it cut gives the string again: the cuts fall exactly at the separators |
| Words.ConcatPieces | exercicioPOO1-1.cs:51 | joining the pieces with nothing between them gives the string's non-separator characters |
| Words.RemoveEmpty | exercicioPOO1-1.cs:51 | `RemoveEmptyEntries` keeps no empty piece and invents no piece. Every non-empty piece value appears in the result. The result is never longer, and joins to the same string as the input |
| Words.RemoveEmptySingle | exercicioPOO1-1.cs:51 | a single piece is kept exactly when it is non-empty |
| Words.RemoveEmptyAppend | exercicioPOO1-1.cs:51 | dropping empty pieces distributes over concatenation. With `RemoveEmptySingle`, this fixes the result for every list: the non-empty pieces, each as often as it occurs, in their original order |
| Words.Split | exercicioPOO1-1.cs:51 | every token of the split is non-empty and free of separators |
| Words.SplitCountIsRunCount | exercicioPOO1-1.cs:49-52 | the number of tokens `ContarPalavras` returns equals the number of maximal runs of non-separator characters |
| Words.SplitKeepsLetters | exercicioPOO1-1.cs:51 | the tokens, put together in order, are exactly the non-separator characters of the content: only separators are lost |
| Words.NoRunsIffAllSeparators | exercicioPOO1-1.cs:49-52 | the count is 0 if and only if every character is a space, newline or tab (this includes empty content) |
| Words.RunCountBound | exercicioPOO1-1.cs:49-52 | the count is at most (length + 1) / 2, so never more than the content's length |
| Words.WordCountOfEmpty | exercicioPOO1-1.cs:49-52 | empty content has 0 words |
| Words.WordCountOfMixedSeparators | exercicioPOO1-1.cs:49-52 | "a b\tc\nd" has 4 words: space, tab and newline all separate |
| Words.CarriageReturnIsNotSeparator | exercicioPOO1-1.cs:51 | '\r' is not a separator: "a\r\nb" splits into "a\r" and "b" |
| DocumentObjects.TextDocument.CountWords | exercicioPOO1-1.cs:49-52 | `ContarPalavras` returns the run count of the current content. The result lies between 0 and the content's length, and is 0 exactly when the content is all separators |
| Documents.HeaderLine | exercicioPOO1-1.cs:18-21 | the base line starts with the title label "Título: ", so it is never the delimiter line |
| Documents.FormattedContent | exercicioPOO1-1.cs:44-113 | text: the content unchanged. HTML: the opening style tag, the CSS, the closing tag and the markup, in that order, even when the CSS is empty. PDF: starts with the text. It equals the text exactly when the watermark is empty, so there is no trailing newline. Otherwise the text is followed by "\nMarca d'água: " and the watermark |
| Documents.HtmlRoundTrip | exercicioPOO1-1.cs:76-79 | HTML formatting is inverted by `ParseHtml`: the CSS and the markup come back, as long as the CSS does not itself contain the closing style tag |
| Documents.PdfRoundTrip | exercicioPOO1-1.cs:110-113 | PDF formatting is inverted by `ParsePdf`: the text and the watermark come back (an absent watermark as the empty one), as long as the text does not itself contain the watermark separator |
| Documents.WithStyle | exercicioPOO1-1.cs:81-84 | `AdicionarEstilo` leaves the old CSS as a prefix, follows it directly with the fragment, and keeps the header and the markup |
| Documents.WithWatermark | exercicioPOO1-1.cs:115-118 | `AdicionarMarcaDagua` sets the watermark to the new value whatever it was, and keeps the header and the text |
| Documents.StylesAccumulate | exercicioPOO1-1.cs:81-84 | after any sequence of `AdicionarEstilo` calls, the CSS is the old CSS followed by the fragments in call order, with no separator |
| Documents.FormattedAfterStyles | exercicioPOO1-1.cs:76-79 | after any number of `AdicionarEstilo` calls, the formatted content is the style block with the accumulated CSS, then the markup |
| Documents.LastWatermarkWins | exercicioPOO1-1.cs:115-118 | after one or more `AdicionarMarcaDagua` calls, the watermark is the last value written and nothing else changed |
| Documents.FormattedAfterWatermarks | exercicioPOO1-1.cs:110-118 | after one or more `AdicionarMarcaDagua` calls, the formatted content is the text followed by the separator and the last watermark, or the bare text when that last one is empty |
| Documents.PrintLines | exercicioPOO1-1.cs:37-108 | every override writes the base header line first. Text: then its label and content. HTML: then the HTML and CSS labels and values, always. PDF: then the text label and text, and a fourth line with the watermark exactly when the watermark is non-empty |
| Documents.PrintLinesWithoutDelimiter | exercicioPOO1-1.cs:37-108 | a document's own lines contain no delimiter line unless one of its raw fields is the delimiter text |
| Documents.BatchOutput | exercicioPOO1-1.cs:123-131 | the batch writes nothing exactly when the list is empty |
| Documents.BatchOutputAppend | exercicioPOO1-1.cs:123-131 | printing a concatenated list writes the output of the first part, then that of the second |
| Documents.BatchOutputStep | exercicioPOO1-1.cs:125-129 | one more loop iteration adds the document's lines and one delimiter |
| Documents.BatchBlock | exercicioPOO1-1.cs:123-131 | the output is, in list order, the blocks of the earlier documents, then this document's lines and one delimiter, then the blocks of the later ones |
| Documents.DelimiterPerDocument | exercicioPOO1-1.cs:123-131 | when no document's field is the delimiter text, the output holds exactly one delimiter line per document |
| Documents.ThreeDocumentBatch | exercicioPOO1-1.cs:123-131 | a batch of a text document, an HTML document and a PDF with a watermark (the entry point's shape) prints fifteen lines: each document's lines in order, each followed by the delimiter |
| DocumentObjects.PrintHeader | exercicioPOO1-1.cs:18-21 | the base `Imprimir` appends exactly the header line to the console |
| DocumentObjects.TextDocument.constructor | exercicioPOO1-1.cs:31-35 | a new text document holds the given title, author, content and creation time |
| DocumentObjects.TextDocument.Print | exercicioPOO1-1.cs:37-42 | the text override appends exactly `PrintLines` of the document's current value |
| DocumentObjects.HtmlDocument.constructor | exercicioPOO1-1.cs:59-65 | a new HTML document holds the given fields, and its CSS starts empty |
| DocumentObjects.HtmlDocument.AddStyle | exercicioPOO1-1.cs:81-84 | the new value is `WithStyle` of the old one: the CSS grows by the fragment and nothing else changes |
| DocumentObjects.HtmlDocument.Print | exercicioPOO1-1.cs:67-74 | the HTML override appends exactly `PrintLines` of the document's current value |
| DocumentObjects.PdfDocument.constructor | exercicioPOO1-1.cs:91-97 | a new PDF document holds the given fields, and its watermark starts empty |
| DocumentObjects.PdfDocument.SetWatermark | exercicioPOO1-1.cs:115-118 | the new value is `WithWatermark` of the old one: the watermark is replaced and nothing else changes |
| DocumentObjects.PdfDocument.Print | exercicioPOO1-1.cs:99-108 | the PDF override appends exactly `PrintLines` of the document's current value, and so writes the watermark line only when there is a watermark |
| DocumentObjects.LogStep | exercicioPOO1-1.cs:125-129 | after one iteration of the loop, the log is the batch output of one more document |
| DocumentObjects.ProcessBatch | exercicioPOO1-1.cs:123-131 | the loop appends to the console exactly `BatchOutput` of the documents, in list order |
| DocumentObjects.SampleRun | exercicioPOO1-1.cs:137-151 | the entry point builds the three documents, adds the style, sets the watermark and prints the batch. The console then holds the fifteen expected lines, for any three creation times |

## Left out

- Console output is a log (`seq<string>`) passed in and returned. Real I/O and flushing are not modelled.
- The log holds one entry per `WriteLine` call, not one per line on the console. A field is written verbatim, so a field holding a newline spans several console lines. Claims about delimiter lines (`PrintLinesWithoutDelimiter`, `DelimiterPerDocument`) count `WriteLine` calls: a field such as `"x\n"` followed by the delimiter text puts a delimiter line on the console without being equal to the delimiter.
- The clock (`DateTime.Now`) and how `DataCriacao` is rendered depend on the environment and its culture. The constructors take a `Timestamp` holding the rendered text.
- Null strings do not exist in the model, so `string.IsNullOrEmpty` is the test for the empty string.
- The public setters of `Titulo`, `Autor`, `DataCriacao`, `Conteudo`, `Html` and `Texto` are not operations of the model. The program never calls them after construction.
- A null list or a null element makes `ProcessarLote` throw `NullReferenceException` at `doc.Imprimir()`. References in the model are never null, so this failure is not modelled.
- `ConteudoFormatado` is modelled on the document's value (`FormattedContent` of `Snapshot()`), not as a method of each class. It reads the fields and changes nothing.
- Virtual dispatch is a `match` over the datatype `DocumentRef`. C#'s runtime inheritance and the downcasts in `Main` are not modelled: `SampleRun` keeps typed references to the three documents.
- `Main` is reproduced only as the concrete scenario `SampleRun`.
- Documents.DelimiterPerDocument: the count of one delimiter per document needs the assumption that no raw field equals the delimiter text. The program prints fields verbatim, so a field can add more delimiter lines.
