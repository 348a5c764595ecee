/**
 * The document classes as objects whose fields change in place, and the
 * batch processor. Each class is specified by `Snapshot()`, its fields as a
 * `Documents.Doc` value.
 *
 * The console is the log of lines written to it so far: a printing method
 * takes the log as it was and returns it with its own lines appended, one
 * `WriteLine` after another.
 *
 * C#'s virtual dispatch over `Documento` becomes the datatype `DocumentRef`,
 * on whose kind the batch processor matches to call the right `Print`.
 */
module DocumentObjects {
  import Words
  import opened Documents

  /** `Documento.Imprimir`, which every override calls first. */
  method PrintHeader(h: Header, log: seq<string>) returns (log': seq<string>)
    ensures log' == log + [HeaderLine(h)]
  {
    log' := log + [HeaderLine(h)];
  }

  class TextDocument {
    var title: string
    var author: string
    var createdAt: Timestamp
    var content: string

    function Snapshot(): (d: Doc)
      reads this
      ensures d.Text? && d.content == content
      ensures d.header == Header(title, author, createdAt)
    {
      Text(Header(title, author, createdAt), content)
    }

    /** `createdAt` is the clock reading taken when the document is built. */
    constructor (title: string, author: string, content: string, createdAt: Timestamp)
      ensures Snapshot() == Text(Header(title, author, createdAt), content)
    {
      this.title := title;
      this.author := author;
      this.createdAt := createdAt;
      this.content := content;
    }

    method Print(log: seq<string>) returns (log': seq<string>)
      ensures log' == log + PrintLines(Snapshot())
    {
      log' := PrintHeader(Header(title, author, createdAt), log);
      log' := log' + ["Conteúdo:"];
      log' := log' + [content];
    }

    /** `ContarPalavras`: the number of maximal runs of non-separator characters. */
    method CountWords() returns (n: int)
      ensures n == Words.RunCount(content)
      ensures 0 <= n <= |content|
      ensures n == 0 <==> forall i :: 0 <= i < |content| ==> Words.IsSeparator(content[i])
    {
      n := |Words.Split(content)|;
      Words.SplitCountIsRunCount(content);
      Words.RunCountBound(content);
      Words.NoRunsIffAllSeparators(content);
    }
  }

  class HtmlDocument {
    var title: string
    var author: string
    var createdAt: Timestamp
    var html: string
    var css: string

    function Snapshot(): (d: Doc)
      reads this
      ensures d.Html? && d.html == html && d.css == css
      ensures d.header == Header(title, author, createdAt)
    {
      Html(Header(title, author, createdAt), html, css)
    }

    /** The CSS starts empty. */
    constructor (title: string, author: string, html: string, createdAt: Timestamp)
      ensures Snapshot() == Html(Header(title, author, createdAt), html, "")
    {
      this.title := title;
      this.author := author;
      this.createdAt := createdAt;
      this.html := html;
      this.css := "";
    }

    /** `AdicionarEstilo`: appends to the CSS; nothing else changes. */
    method AddStyle(fragment: string)
      modifies this
      ensures Snapshot() == WithStyle(old(Snapshot()), fragment)
    {
      css := css + fragment;
    }

    method Print(log: seq<string>) returns (log': seq<string>)
      ensures log' == log + PrintLines(Snapshot())
    {
      log' := PrintHeader(Header(title, author, createdAt), log);
      log' := log' + ["HTML:"];
      log' := log' + [html];
      log' := log' + ["CSS:"];
      log' := log' + [css];
    }
  }

  class PdfDocument {
    var title: string
    var author: string
    var createdAt: Timestamp
    var text: string
    var watermark: string

    function Snapshot(): (d: Doc)
      reads this
      ensures d.Pdf? && d.text == text && d.watermark == watermark
      ensures d.header == Header(title, author, createdAt)
    {
      Pdf(Header(title, author, createdAt), text, watermark)
    }

    /** The watermark starts empty. */
    constructor (title: string, author: string, text: string, createdAt: Timestamp)
      ensures Snapshot() == Pdf(Header(title, author, createdAt), text, "")
    {
      this.title := title;
      this.author := author;
      this.createdAt := createdAt;
      this.text := text;
      this.watermark := "";
    }

    /** `AdicionarMarcaDagua`: replaces the watermark; nothing else changes. */
    method SetWatermark(watermark: string)
      modifies this
      ensures Snapshot() == WithWatermark(old(Snapshot()), watermark)
    {
      this.watermark := watermark;
    }

    method Print(log: seq<string>) returns (log': seq<string>)
      ensures log' == log + PrintLines(Snapshot())
    {
      log' := PrintHeader(Header(title, author, createdAt), log);
      log' := log' + ["Texto:"];
      log' := log' + [text];
      if watermark != [] {
        log' := log' + [WatermarkLine(watermark)];
      }
    }
  }

  /** A reference to a document of any kind: an element of the batch's `List<Documento>`. */
  datatype DocumentRef =
    | TextRef(textDoc: TextDocument)
    | HtmlRef(htmlDoc: HtmlDocument)
    | PdfRef(pdfDoc: PdfDocument)
  {
    function Target(): object {
      match this
      case TextRef(t) => t
      case HtmlRef(h) => h
      case PdfRef(p) => p
    }

    /** The referenced document's current value. */
    function Snapshot(): Doc
      reads Target()
    {
      match this
      case TextRef(t) => t.Snapshot()
      case HtmlRef(h) => h.Snapshot()
      case PdfRef(p) => p.Snapshot()
    }
  }

  /** One more document printed and closed by its delimiter extends the batch output by its block. */
  lemma LogStep(log: seq<string>, batch: seq<Doc>, i: nat, before: seq<string>, printed: seq<string>, after: seq<string>)
    requires i < |batch|
    requires before == log + BatchOutput(batch[..i])
    requires printed == before + PrintLines(batch[i])
    requires after == printed + [Delimiter]
    ensures after == log + BatchOutput(batch[..i + 1])
  {
    BatchOutputStep(batch, i);
  }

  /**
   * `ProcessadorDocumentos.ProcessarLote`: print each document, then a
   * delimiter line. `batch` names the documents' values when the batch starts.
   */
  method ProcessBatch(docs: seq<DocumentRef>, ghost batch: seq<Doc>, log: seq<string>) returns (log': seq<string>)
    requires |batch| == |docs|
    requires forall i :: 0 <= i < |docs| ==> batch[i] == docs[i].Snapshot()
    ensures log' == log + BatchOutput(batch)
  {
    log' := log;
    var i := 0;
    while i < |docs|
      invariant 0 <= i <= |docs|
      invariant log' == log + BatchOutput(batch[..i])
    {
      ghost var before := log';
      // The virtual call `doc.Imprimir()`: the override of the document's own kind runs.
      match docs[i] {
        case TextRef(t) => log' := t.Print(log');
        case HtmlRef(h) => log' := h.Print(log');
        case PdfRef(p) => log' := p.Print(log');
      }
      ghost var printed := log';
      log' := log' + [Delimiter];
      LogStep(log, batch, i, before, printed, log');
      i := i + 1;
    }
    assert batch[..|docs|] == batch;
  }

  /**
   * The sample run of the program's entry point: a text, an HTML and a PDF
   * document, one style added to the HTML one and a watermark set on the PDF
   * one, then one batch over the three. The three clock readings are inputs.
   */
  method SampleRun(t1: Timestamp, t2: Timestamp, t3: Timestamp) returns (lines: seq<string>)
    ensures lines == [
      HeaderLine(Header("Relatório", "Alice", t1)),
      "Conteúdo:",
      "Este é um relatório de exemplo.",
      Delimiter,
      HeaderLine(Header("Página Web", "Bob", t2)),
      "HTML:",
      "<h1>Bem-vindo</h1><p>Este é um documento HTML.</p>",
      "CSS:",
      "h1 { color: blue; }",
      Delimiter,
      HeaderLine(Header("Contrato", "Carlos", t3)),
      "Texto:",
      "Este é um contrato oficial.",
      "Marca d'água: Confidencial",
      Delimiter
    ]
  {
    var report := new TextDocument("Relatório", "Alice", "Este é um relatório de exemplo.", t1);
    var page := new HtmlDocument("Página Web", "Bob", "<h1>Bem-vindo</h1><p>Este é um documento HTML.</p>", t2);
    var contract := new PdfDocument("Contrato", "Carlos", "Este é um contrato oficial.", t3);
    var docs := [TextRef(report), HtmlRef(page), PdfRef(contract)];
    page.AddStyle("h1 { color: blue; }");
    contract.SetWatermark("Confidencial");
    assert page.css == "" + "h1 { color: blue; }";
    ghost var batch := [
      Text(Header("Relatório", "Alice", t1), "Este é um relatório de exemplo."),
      Html(Header("Página Web", "Bob", t2), "<h1>Bem-vindo</h1><p>Este é um documento HTML.</p>", "h1 { color: blue; }"),
      Pdf(Header("Contrato", "Carlos", t3), "Este é um contrato oficial.", "Confidencial")];
    assert report.Snapshot() == batch[0];
    assert page.Snapshot() == batch[1];
    assert contract.Snapshot() == batch[2];
    lines := ProcessBatch(docs, batch, []);
    ThreeDocumentBatch(batch[0], batch[1], batch[2]);
    ConfidentialWatermarkLine();
  }
}
