/** The part of the OCR service's annotation tree the pipeline reads:
    page -> block -> paragraph -> word -> symbol. Every field the service
    may leave out is an Option. */
module Vision {
  import opened Results

  /** The service's break classification after a symbol. */
  datatype BreakType = Unknown | Space | SureSpace | EolSureSpace | Hyphen | LineBreak

  datatype DetectedBreak = DetectedBreak(breakType: Option<BreakType>)

  datatype DetectedLanguage = DetectedLanguage(languageCode: Option<string>)

  datatype TextProperty = TextProperty(
    detectedLanguages: Option<seq<DetectedLanguage>>,
    detectedBreak: Option<DetectedBreak>)

  /** One recognised glyph. */
  datatype Symbol = Symbol(property: Option<TextProperty>, text: Option<string>)

  /** The two coordinates of a vertex. */
  datatype Axis = X | Y

  /** A pixel corner of a bounding box. */
  datatype Vertex = Vertex(x: Option<int>, y: Option<int>)

  /** A corner of a bounding box in page-relative coordinates (0..1). */
  datatype NormalizedVertex = NormalizedVertex(x: Option<real>, y: Option<real>)

  datatype BoundingPoly = BoundingPoly(
    vertices: Option<seq<Vertex>>,
    normalizedVertices: Option<seq<NormalizedVertex>>)

  datatype Word = Word(symbols: Option<seq<Symbol>>, boundingBox: Option<BoundingPoly>)

  datatype Paragraph = Paragraph(words: Option<seq<Word>>)

  datatype Block = Block(paragraphs: Option<seq<Paragraph>>)

  datatype Page = Page(blocks: Option<seq<Block>>)

  /** `item.property?.detectedBreak?.type` */
  function BreakOf(s: Symbol): Option<BreakType>
  {
    match s.property
    case None => None
    case Some(p) =>
      match p.detectedBreak
      case None => None
      case Some(b) => b.breakType
  }

  /** `${item.text}`: an undefined text is rendered by the template literal
      as "undefined". A `null` text, which JavaScript renders as "null", is
      not distinguished from an undefined one here. */
  function TextOf(s: Symbol): string
  {
    match s.text
    case Some(t) => t
    case None => "undefined"
  }

  /** `boundingBox?.vertices` */
  function PixelVertices(w: Word): Option<seq<Vertex>>
  {
    match w.boundingBox
    case None => None
    case Some(b) => b.vertices
  }

  /** `boundingBox?.normalizedVertices` */
  function NormalizedVertices(w: Word): Option<seq<NormalizedVertex>>
  {
    match w.boundingBox
    case None => None
    case Some(b) => b.normalizedVertices
  }
}
