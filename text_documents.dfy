/**
 * The open-document table of `TeiidDdlTextDocumentService` and its fixed answers. The
 * table maps a URI to the document item the client sent; `didChange` changes the stored
 * item in place, so whoever holds a reference to that item sees the new text.
 */
module TextDocuments {
  import opened Results

  /** A document as the client sent it; only its text is ever changed. */
  class TextDocumentItem {
    const uri: string
    const languageId: string
    const version: int
    var text: string

    constructor (uri: string, languageId: string, version: int, text: string)
      ensures this.uri == uri && this.languageId == languageId && this.version == version && this.text == text
    {
      this.uri := uri;
      this.languageId := languageId;
      this.version := version;
      this.text := text;
    }
  }

  /** `didChange` on a URI that was never opened dereferences `null`. */
  datatype DocumentError = NullPointer

  datatype CompletionItem = CompletionItem(labelText: string)

  /** The completion labels, in the order they are offered. */
  const COMPLETION_LABELS: seq<string> :=
    ["PostgresDB.contact", "PostgresDB.winelist", "MongoPartsDB.supplier", "SELECT", "WHERE", "FULL JOIN", "INNER JOIN"]

  /** `completion`: the same seven items whatever document and position are asked about. */
  function Completion(uri: string): (r: seq<CompletionItem>)
    ensures |r| == |COMPLETION_LABELS| == 7
    ensures forall k :: 0 <= k < |r| ==> r[k].labelText == COMPLETION_LABELS[k]
  {
    seq(|COMPLETION_LABELS|, k requires 0 <= k < |COMPLETION_LABELS| => CompletionItem(COMPLETION_LABELS[k]))
  }

  /** The answer does not depend on the request. */
  lemma CompletionConstant(uri: string, uri': string)
    ensures Completion(uri) == Completion(uri')
  {
  }

  /** `resolveCompletionItem`: the item as it came. */
  function ResolveCompletionItem(unresolved: CompletionItem): (r: CompletionItem)
    ensures r == unresolved
  {
    unresolved
  }

  /** The other requests of the service. */
  datatype Query =
    | Hover | SignatureHelp | Definition | References | DocumentHighlight | DocumentSymbol
    | CodeAction | CodeLens | ResolveCodeLens | Formatting | RangeFormatting | OnTypeFormatting | Rename

  /** What those requests complete with: `null`, or an empty list. */
  datatype Answer = NoAnswer | EmptyList

  /**
   * References, highlights, symbols, code actions, code lenses and the three formattings
   * answer with an empty list; hover, signature help, definition, code-lens resolution and
   * rename with `null`.
   */
  function QueryAnswer(q: Query): (r: Answer)
    ensures r == EmptyList <==> q in {References, DocumentHighlight, DocumentSymbol, CodeAction, CodeLens,
                                      Formatting, RangeFormatting, OnTypeFormatting}
  {
    match q
    case Hover | SignatureHelp | Definition | ResolveCodeLens | Rename => NoAnswer
    case _ => EmptyList
  }

  /** The service and its table of open documents. */
  class TextDocumentService {
    var openedDocuments: map<string, TextDocumentItem>

    constructor ()
      ensures openedDocuments == map[]
    {
      openedDocuments := map[];
    }

    /** `getOpenedDocument`: the item stored under `uri`, or nothing. */
    function GetOpenedDocument(uri: string): (r: Option<TextDocumentItem>)
      reads this
      ensures r.Some? <==> uri in openedDocuments
      ensures r.Some? ==> r.value == openedDocuments[uri]
    {
      if uri in openedDocuments then Some(openedDocuments[uri]) else None
    }

    /** `getAllOpenedDocuments`: the stored items, one for each URI that holds it. */
    function GetAllOpenedDocuments(): (r: set<TextDocumentItem>)
      reads this
      ensures forall uri :: uri in openedDocuments ==> openedDocuments[uri] in r
      ensures r <= openedDocuments.Values
    {
      openedDocuments.Values
    }

    /** `didOpen`: stores the item under its URI, in place of any earlier one. */
    method DidOpen(textDocument: TextDocumentItem)
      modifies this
      ensures openedDocuments == old(openedDocuments)[textDocument.uri := textDocument]
      ensures GetOpenedDocument(textDocument.uri) == Some(textDocument)
    {
      openedDocuments := openedDocuments[textDocument.uri := textDocument];
    }

    /**
     * `didChange`: with at least one change, the stored item takes the first change's text
     * and later changes are ignored; with none, nothing happens. Changes to a URI that is not
     * open fail. The table itself is never changed.
     */
    method DidChange(uri: string, contentChanges: seq<string>) returns (r: Result<(), DocumentError>)
      modifies if uri in openedDocuments then {openedDocuments[uri]} else {}
      ensures openedDocuments == old(openedDocuments)
      ensures r.Err? <==> contentChanges != [] && uri !in openedDocuments
      ensures r.Err? ==> r.error == NullPointer
      ensures uri in openedDocuments ==>
                openedDocuments[uri].text == if contentChanges == [] then old(openedDocuments[uri].text) else contentChanges[0]
    {
      var textDocumentItem := GetOpenedDocument(uri);
      if contentChanges != [] {
        if textDocumentItem.None? {
          return Err(NullPointer);
        }
        textDocumentItem.value.text := contentChanges[0];
      }
      return Ok(());
    }

    /** `didClose`: removes the URI's entry and no other. */
    method DidClose(uri: string)
      modifies this
      ensures openedDocuments == old(openedDocuments) - {uri}
      ensures GetOpenedDocument(uri).None?
    {
      openedDocuments := openedDocuments - {uri};
    }
  }
}
