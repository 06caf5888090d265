/** The document tree: the closed sum types of blocks and inline segments
    shared by every parser generation (lib/markdown.type.js:1-29). */
module Syntax {

  /** An inline segment. `Url` is the link segment of the oldest parser
      generation, which tags links `'url'` instead of `'link'`. */
  datatype Segment =
    | Text(text: string)
    | Image(alt: string, src: string)
    | Link(text: string, url: string)
    | Url(text: string, url: string)
    | Bold(text: string)
    | Italic(text: string)
    | Code(text: string)

  datatype Align = Left | Center | Right

  /** One header or body cell of a table. */
  datatype Cell = Cell(segments: seq<Segment>)

  /** A block. Leaves carry no `contents`; list blocks hold `ListItem`s. */
  datatype Block =
    | Heading(level: nat, heading: string)
    | HorizontalRule
    | Blockquote(contents: seq<Block>)
    | UnorderedList(contents: seq<Block>)
    | OrderedList(contents: seq<Block>)
    | ListItem(contents: seq<Block>)
    | CodeBlock(language: string, code: string)
    | Table(header: seq<Cell>, align: seq<Align>, rows: seq<seq<Cell>>)
    | Html(html: string)
    | Inline(segments: seq<Segment>)
    | EmptyLine

  /** The error a reader throws, with the line it names. */
  datatype ParseError =
    | NotAHeading(line: string)     // the heading capture failed
    | NotHtml(line: string)         // the opening tag capture failed
    | NotInline(line: string)       // the paragraph capture failed
    | BadTableHeader(line: string)  // no alignment line, or too few cells in it
    | BadTableRow(line: string)     // a body row with too few cells
}
