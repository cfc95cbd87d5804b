/** The shape of a document handler (doc_handlers/document_handler_interface.py): a way to
    pull a document id out of a url and a way to download the document of an id. The Google
    Docs handler is the only implementation. */
module Handlers {
  import opened Results
  import opened DocModel
  import GoogleDocs

  datatype Handler = GoogleDocsHandler {

    /** `extract_doc_id`: the id in `url`, or `None`. */
    function ExtractId(url: string): Option<string> {
      match this
      case GoogleDocsHandler => GoogleDocs.ExtractDocId(url)
    }

    /** `download_doc`: fetch the exported container of `id`; it may raise. */
    function Download(env: Environment, id: string): Result<Bytes> {
      match this
      case GoogleDocsHandler => env.download(id)
    }
  }
}
