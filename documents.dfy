/**
 * The document hierarchy as values: what each kind of document holds, its
 * formatted content (`ConteudoFormatado`), the lines its `Imprimir` writes,
 * the lines the batch processor writes, and the effect of the two
 * kind-specific mutators. The classes in module DocumentObjects keep their
 * fields in place and are specified by these functions.
 */
module Documents {
  import Joins

  datatype Option<T> = None | Some(value: T)

  /**
   * The creation time (`DataCriacao`), sampled from the clock once at
   * construction. It is carried as the text the header line shows for it;
   * how the clock is read and rendered is outside the model.
   */
  datatype Timestamp = Timestamp(text: string)

  /** The metadata every document shares (`Titulo`, `Autor`, `DataCriacao`). */
  datatype Header = Header(title: string, author: string, createdAt: Timestamp)

  /** One value per concrete kind: `DocumentoTexto`, `DocumentoHTML`, `DocumentoPDF`. */
  datatype Doc =
    | Text(header: Header, content: string)
    | Html(header: Header, html: string, css: string)
    | Pdf(header: Header, text: string, watermark: string)

  const StyleOpen := "<style>"
  const StyleClose := "</style>"
  const WatermarkLabel := "Marca d'água: "
  /** What `ConteudoFormatado` puts between a PDF's text and its watermark. */
  const WatermarkSeparator := "\n" + WatermarkLabel
  /** The line `ProcessarLote` writes after every document. */
  const Delimiter := "--------------------------------"

  /** `Documento.Imprimir`: the single line the base class writes. */
  function HeaderLine(h: Header): (line: string)
    ensures "Título: " <= line
  {
    "Título: " + h.title + ", Autor: " + h.author + ", Data: " + h.createdAt.text
  }

  function WatermarkLine(watermark: string): string {
    WatermarkLabel + watermark
  }

  /** The watermark line of the program's sample PDF. */
  lemma ConfidentialWatermarkLine()
    ensures WatermarkLine("Confidencial") == "Marca d'água: Confidencial"
  {
    assert WatermarkLabel + "Confidencial" == "Marca d'água: Confidencial";
  }

  // ---------------------------------------------------------------------------
  // ConteudoFormatado
  // ---------------------------------------------------------------------------

  /**
   * `ConteudoFormatado` of each kind. Text is the identity on the content;
   * HTML is the style block (even an empty one) followed by the markup; PDF is
   * the text, followed by the watermark only when there is one.
   */
  function FormattedContent(d: Doc): (r: string)
    ensures d.Text? ==> r == d.content
    ensures d.Html? ==>
      |r| == |StyleOpen| + |d.css| + |StyleClose| + |d.html| &&
      r[..|StyleOpen|] == StyleOpen &&
      r[|StyleOpen|..|StyleOpen| + |d.css|] == d.css &&
      r[|StyleOpen| + |d.css|..|StyleOpen| + |d.css| + |StyleClose|] == StyleClose &&
      r[|StyleOpen| + |d.css| + |StyleClose|..] == d.html
    ensures d.Pdf? ==> |r| >= |d.text| && r[..|d.text|] == d.text
    ensures d.Pdf? ==> (r == d.text <==> d.watermark == [])
    ensures d.Pdf? && d.watermark != [] ==> r[|d.text|..] == WatermarkSeparator + d.watermark
  {
    match d
    case Text(_, content) => content
    case Html(_, html, css) => StyleOpen + css + StyleClose + html
    case Pdf(_, text, watermark) =>
      text + (if watermark == [] then "" else WatermarkSeparator + watermark)
  }

  // ---------------------------------------------------------------------------
  // Reading formatted content back
  // ---------------------------------------------------------------------------

  predicate OccursAt(s: string, pat: string, k: int) {
    0 <= k && k + |pat| <= |s| && s[k..k + |pat|] == pat
  }

  predicate Contains(s: string, pat: string) {
    exists k | 0 <= k <= |s| :: OccursAt(s, pat, k)
  }

  /** The first position at or after `from` where `pat` occurs in `s`, if there is one. */
  function IndexOf(s: string, pat: string, from: nat): (r: Option<nat>)
    requires from <= |s|
    ensures r.Some? ==> from <= r.value && OccursAt(s, pat, r.value)
    ensures r.Some? ==> forall k :: from <= k < r.value ==> !OccursAt(s, pat, k)
    ensures r.None? ==> forall k :: from <= k ==> !OccursAt(s, pat, k)
    decreases |s| - from
  {
    if from + |pat| > |s| then None
    else if s[from..from + |pat|] == pat then Some(from)
    else IndexOf(s, pat, from + 1)
  }

  /** No character of `pat` after the first equals the first: an occurrence cannot straddle another. */
  predicate FirstCharUnique(pat: string) {
    |pat| > 0 && forall j :: 0 < j < |pat| ==> pat[j] != pat[0]
  }

  /**
   * In `p + a + pat + b`, when `a` does not contain `pat` and `pat` cannot
   * overlap itself, the first occurrence of `pat` from `|p|` on is the one
   * right after `a`.
   */
  lemma FirstOccurrence(p: string, a: string, pat: string, b: string)
    requires FirstCharUnique(pat) && !Contains(a, pat)
    ensures IndexOf(p + a + pat + b, pat, |p|) == Some(|p| + |a|)
  {
    var s := p + a + pat + b;
    var at := |p| + |a|;
    assert s[at..at + |pat|] == pat;
    assert OccursAt(s, pat, at);
    forall k | |p| <= k < at ensures !OccursAt(s, pat, k) {
      if k + |pat| <= at {
        assert s[k..k + |pat|] == a[k - |p|..k - |p| + |pat|];
        assert !OccursAt(a, pat, k - |p|);
      } else {
        assert s[k..k + |pat|][at - k] == s[at] == pat[0];
        assert pat[at - k] != pat[0];
      }
    }
  }

  /** Recovers the CSS and the markup from an HTML document's formatted content. */
  function ParseHtml(r: string): Option<(string, string)> {
    if |r| < |StyleOpen| || r[..|StyleOpen|] != StyleOpen then None
    else
      match IndexOf(r, StyleClose, |StyleOpen|)
      case None => None
      case Some(k) => Some((r[|StyleOpen|..k], r[k + |StyleClose|..]))
  }

  /** Recovers the text and the watermark (empty when absent) from a PDF's formatted content. */
  function ParsePdf(r: string): (string, string) {
    match IndexOf(r, WatermarkSeparator, 0)
    case None => (r, "")
    case Some(k) => (r[..k], r[k + |WatermarkSeparator|..])
  }

  /** The HTML formatting loses nothing as long as the CSS does not itself close the style block. */
  lemma HtmlRoundTrip(h: Header, html: string, css: string)
    requires !Contains(css, StyleClose)
    ensures ParseHtml(FormattedContent(Html(h, html, css))) == Some((css, html))
  {
    var r := FormattedContent(Html(h, html, css));
    assert r == StyleOpen + css + StyleClose + html;
    FirstOccurrence(StyleOpen, css, StyleClose, html);
    assert r[..|StyleOpen|] == StyleOpen;
    assert r[|StyleOpen|..|StyleOpen| + |css|] == css;
    assert r[|StyleOpen| + |css| + |StyleClose|..] == html;
  }

  /**
   * The PDF formatting loses nothing as long as the text does not itself hold
   * the watermark separator; in particular an absent watermark is recovered
   * as the empty one.
   */
  lemma PdfRoundTrip(h: Header, text: string, watermark: string)
    requires !Contains(text, WatermarkSeparator)
    ensures ParsePdf(FormattedContent(Pdf(h, text, watermark))) == (text, watermark)
  {
    var r := FormattedContent(Pdf(h, text, watermark));
    if watermark == [] {
      assert r == text;
      var i := IndexOf(r, WatermarkSeparator, 0);
      if i.Some? {
        assert false;
      }
    } else {
      assert r == [] + text + WatermarkSeparator + watermark;
      FirstOccurrence([], text, WatermarkSeparator, watermark);
      assert r[..|text|] == text;
      assert r[|text| + |WatermarkSeparator|..] == watermark;
    }
  }

  // ---------------------------------------------------------------------------
  // AdicionarEstilo and AdicionarMarcaDagua
  // ---------------------------------------------------------------------------

  /** `AdicionarEstilo`: the fragment goes at the end of the CSS, with no separator. */
  function WithStyle(d: Doc, fragment: string): (r: Doc)
    requires d.Html?
    ensures r.Html? && r.header == d.header && r.html == d.html
    ensures |r.css| == |d.css| + |fragment|
    ensures r.css[..|d.css|] == d.css && r.css[|d.css|..] == fragment
  {
    d.(css := d.css + fragment)
  }

  /** `AdicionarMarcaDagua`: the watermark is replaced, whatever it was. */
  function WithWatermark(d: Doc, watermark: string): (r: Doc)
    requires d.Pdf?
    ensures r.Pdf? && r.header == d.header && r.text == d.text
    ensures r.watermark == watermark
  {
    d.(watermark := watermark)
  }

  /** The document after `AdicionarEstilo` was called with each fragment in turn. */
  function StylesApplied(d: Doc, fragments: seq<string>): (r: Doc)
    requires d.Html?
    ensures r.Html?
    decreases |fragments|
  {
    if fragments == [] then d
    else StylesApplied(WithStyle(d, fragments[0]), fragments[1..])
  }

  /** The document after `AdicionarMarcaDagua` was called with each value in turn. */
  function WatermarksApplied(d: Doc, watermarks: seq<string>): (r: Doc)
    requires d.Pdf?
    ensures r.Pdf?
    decreases |watermarks|
  {
    if watermarks == [] then d
    else WatermarksApplied(WithWatermark(d, watermarks[0]), watermarks[1..])
  }

  /** Styles accumulate in call order; the markup and the header stay as they were. */
  lemma {:induction false} StylesAccumulate(d: Doc, fragments: seq<string>)
    requires d.Html?
    ensures StylesApplied(d, fragments) == d.(css := d.css + Joins.Concat(fragments))
    decreases |fragments|
  {
    if fragments != [] {
      StylesAccumulate(WithStyle(d, fragments[0]), fragments[1..]);
      assert d.css + fragments[0] + Joins.Concat(fragments[1..]) == d.css + Joins.Concat(fragments);
    }
  }

  /** The HTML formatting rule holds however many styles were added. */
  lemma FormattedAfterStyles(d: Doc, fragments: seq<string>)
    requires d.Html?
    ensures FormattedContent(StylesApplied(d, fragments)) ==
      StyleOpen + d.css + Joins.Concat(fragments) + StyleClose + d.html
  {
    StylesAccumulate(d, fragments);
    var r := StylesApplied(d, fragments);
    assert r.html == d.html && r.css == d.css + Joins.Concat(fragments);
    assert FormattedContent(r) == StyleOpen + r.css + StyleClose + r.html;
  }

  /** Only the last watermark written remains; the earlier ones leave no trace. */
  lemma {:induction false} LastWatermarkWins(d: Doc, watermarks: seq<string>)
    requires d.Pdf? && watermarks != []
    ensures WatermarksApplied(d, watermarks) == d.(watermark := watermarks[|watermarks| - 1])
    decreases |watermarks|
  {
    if |watermarks| > 1 {
      LastWatermarkWins(WithWatermark(d, watermarks[0]), watermarks[1..]);
    }
  }

  /**
   * The PDF formatting rule after one or more `AdicionarMarcaDagua` calls:
   * the text, then the separator and the last watermark when that one is
   * non-empty, and the bare text when it is empty.
   */
  lemma FormattedAfterWatermarks(d: Doc, watermarks: seq<string>)
    requires d.Pdf? && watermarks != []
    ensures var last := watermarks[|watermarks| - 1];
      FormattedContent(WatermarksApplied(d, watermarks)) ==
        if last == [] then d.text else d.text + WatermarkSeparator + last
  {
    LastWatermarkWins(d, watermarks);
  }

  // ---------------------------------------------------------------------------
  // Imprimir and ProcessarLote
  // ---------------------------------------------------------------------------

  /**
   * The lines each `Imprimir` override writes: always the base header line
   * first. A text document adds a label and its content; an HTML document its
   * markup and its CSS, both with labels and both always; a PDF its text and,
   * only when it has one, the watermark.
   */
  function PrintLines(d: Doc): (lines: seq<string>)
    ensures |lines| >= 3 && lines[0] == HeaderLine(d.header)
    ensures d.Text? ==> lines[1..] == ["Conteúdo:", d.content]
    ensures d.Html? ==> lines[1..] == ["HTML:", d.html, "CSS:", d.css]
    ensures d.Pdf? ==> lines[1..3] == ["Texto:", d.text]
    ensures d.Pdf? ==> (|lines| == 4 <==> d.watermark != [])
    ensures d.Pdf? && d.watermark != [] ==> lines[3] == WatermarkLine(d.watermark)
    ensures d.Pdf? ==> |lines| <= 4
  {
    var base := [HeaderLine(d.header)];
    match d
    case Text(_, content) => base + ["Conteúdo:", content]
    case Html(_, html, css) => base + ["HTML:", html, "CSS:", css]
    case Pdf(_, text, watermark) =>
      base + ["Texto:", text] + (if watermark == [] then [] else [WatermarkLine(watermark)])
  }

  /** What `ProcessarLote` writes: each document's lines, then one delimiter, in list order. */
  function BatchOutput(docs: seq<Doc>): (lines: seq<string>)
    ensures lines == [] <==> docs == []
  {
    if docs == [] then [] else PrintLines(docs[0]) + [Delimiter] + BatchOutput(docs[1..])
  }

  /** Printing two lists one after the other writes what printing their concatenation writes. */
  lemma {:induction false} BatchOutputAppend(a: seq<Doc>, b: seq<Doc>)
    ensures BatchOutput(a + b) == BatchOutput(a) + BatchOutput(b)
  {
    if a == [] {
      assert a + b == b;
    } else {
      assert (a + b)[0] == a[0];
      assert (a + b)[1..] == a[1..] + b;
      BatchOutputAppend(a[1..], b);
    }
  }

  /** Printing one more document adds its lines and one delimiter. */
  lemma BatchOutputStep(docs: seq<Doc>, i: nat)
    requires i < |docs|
    ensures BatchOutput(docs[..i + 1]) == BatchOutput(docs[..i]) + PrintLines(docs[i]) + [Delimiter]
  {
    BatchOutputAppend(docs[..i], [docs[i]]);
    assert docs[..i + 1] == docs[..i] + [docs[i]];
  }

  /**
   * The output of `ProcessarLote` is made of one block per document, in list
   * order: the block of `docs[i]` starts where the blocks of `docs[..i]` end,
   * holds exactly that document's print lines, is closed by the delimiter,
   * and the blocks of the later documents follow.
   */
  lemma BatchBlock(docs: seq<Doc>, i: nat)
    requires i < |docs|
    ensures BatchOutput(docs) ==
      BatchOutput(docs[..i]) + PrintLines(docs[i]) + [Delimiter] + BatchOutput(docs[i + 1..])
  {
    BatchOutputSplit(docs, i);
    BatchOutputFirst(docs[i..]);
    assert docs[i..][1..] == docs[i + 1..];
    Regroup(BatchOutput(docs[..i]), PrintLines(docs[i]), Delimiter, BatchOutput(docs[i + 1..]));
  }

  /** The output of a list is the output of any prefix followed by that of the rest. */
  lemma BatchOutputSplit(docs: seq<Doc>, i: nat)
    requires i <= |docs|
    ensures BatchOutput(docs) == BatchOutput(docs[..i]) + BatchOutput(docs[i..])
  {
    TakeDrop(docs, i);
    BatchOutputAppend(docs[..i], docs[i..]);
  }

  lemma TakeDrop<T>(s: seq<T>, i: nat)
    requires i <= |s|
    ensures s[..i] + s[i..] == s
  {
  }

  /** One unfolding of `BatchOutput`. */
  lemma BatchOutputFirst(docs: seq<Doc>)
    requires docs != []
    ensures BatchOutput(docs) == PrintLines(docs[0]) + [Delimiter] + BatchOutput(docs[1..])
  {
  }

  /** Associativity of concatenation, in the shape `BatchBlock` needs. */
  lemma Regroup<T>(a: seq<T>, b: seq<T>, x: T, c: seq<T>)
    ensures a + (b + [x] + c) == a + b + [x] + c
  {
  }

  /** How many elements of `lines` equal `line`. */
  function Occurrences(lines: seq<string>, line: string): nat {
    if lines == [] then 0 else (if lines[0] == line then 1 else 0) + Occurrences(lines[1..], line)
  }

  lemma {:induction false} OccurrencesAppend(a: seq<string>, b: seq<string>, line: string)
    ensures Occurrences(a + b, line) == Occurrences(a, line) + Occurrences(b, line)
  {
    if a == [] {
      assert a + b == b;
    } else {
      assert (a + b)[1..] == a[1..] + b;
      OccurrencesAppend(a[1..], b, line);
    }
  }

  /**
   * A document's own lines never include the delimiter unless one of its raw
   * fields (content, markup, CSS or text) is exactly the delimiter: the header
   * and watermark lines start with other characters and the labels are fixed.
   */
  predicate NoFieldIsDelimiter(d: Doc) {
    match d
    case Text(_, content) => content != Delimiter
    case Html(_, html, css) => html != Delimiter && css != Delimiter
    case Pdf(_, text, _) => text != Delimiter
  }

  lemma PrintLinesWithoutDelimiter(d: Doc)
    requires NoFieldIsDelimiter(d)
    ensures Occurrences(PrintLines(d), Delimiter) == 0
  {
    var lines := PrintLines(d);
    forall k | 0 <= k < |lines| ensures lines[k] != Delimiter {
      if k == 0 {
        assert lines[0][0] == 'T';
      } else if d.Pdf? && k == 3 {
        assert lines[3][0] == 'M';
      }
    }
    NoOccurrences(lines, Delimiter);
  }

  lemma {:induction false} NoOccurrences(lines: seq<string>, line: string)
    requires forall k :: 0 <= k < |lines| ==> lines[k] != line
    ensures Occurrences(lines, line) == 0
  {
    if lines != [] {
      NoOccurrences(lines[1..], line);
    }
  }

  /**
   * One delimiter per document: when no document's fields are the delimiter
   * text, the batch output holds exactly `|docs|` delimiter lines.
   */
  lemma {:induction false} DelimiterPerDocument(docs: seq<Doc>)
    requires forall i :: 0 <= i < |docs| ==> NoFieldIsDelimiter(docs[i])
    ensures Occurrences(BatchOutput(docs), Delimiter) == |docs|
  {
    if docs != [] {
      DelimiterPerDocument(docs[1..]);
      PrintLinesWithoutDelimiter(docs[0]);
      OccurrencesAppend(PrintLines(docs[0]) + [Delimiter], BatchOutput(docs[1..]), Delimiter);
      OccurrencesAppend(PrintLines(docs[0]), [Delimiter], Delimiter);
      assert Occurrences([Delimiter], Delimiter) == 1;
    }
  }

  /**
   * A batch of a text document, an HTML document and a PDF with a watermark,
   * in that order (the shape of the program's entry point): fifteen lines.
   */
  lemma ThreeDocumentBatch(text: Doc, page: Doc, contract: Doc)
    requires text.Text? && page.Html? && contract.Pdf? && contract.watermark != []
    ensures BatchOutput([text, page, contract]) == [
      HeaderLine(text.header), "Conteúdo:", text.content, Delimiter,
      HeaderLine(page.header), "HTML:", page.html, "CSS:", page.css, Delimiter,
      HeaderLine(contract.header), "Texto:", contract.text, WatermarkLine(contract.watermark), Delimiter
    ]
  {
    var docs := [text, page, contract];
    assert docs[1..] == [page, contract] && docs[1..][1..] == [contract] && docs[1..][1..][1..] == [];
    assert PrintLines(text) == [HeaderLine(text.header), "Conteúdo:", text.content];
    assert PrintLines(page) == [HeaderLine(page.header), "HTML:", page.html, "CSS:", page.css];
    assert PrintLines(contract) ==
      [HeaderLine(contract.header), "Texto:", contract.text, WatermarkLine(contract.watermark)];
    BatchOutputFirst(docs);
    BatchOutputFirst(docs[1..]);
    BatchOutputFirst(docs[1..][1..]);
  }
}
