/**
 * The handler that runs when a terminal document is created: it looks up the
 * terminal's hero image, stores it with the image host, and writes the hosted
 * URL back onto the document.
 *
 * The image locator is an oracle: its answer is a parameter. The upload goes
 * through `WebUtils.SaveImageInCloudflare`, whose HTTP response is a
 * parameter. Every collaborator call is recorded with its arguments.
 */
module TerminalHandler {
  import opened Wrappers
  import opened WebUtils

  /** A stored field value: a string, or null. */
  datatype Value = Null | Text(text: string)

  /** A terminal document: field name to value. */
  type Document = map<string, Value>

  const LinkField: string := "link"
  const NameField: string := "name"
  const ImageUrlField: string := "terminalImageUrl"

  /** The three provider settings read from the environment; each may be unset. */
  datatype Config = Config(apiToken: Option<string>, accountId: Option<string>, imageBaseUrl: Option<string>)

  /** A call the handler makes to a collaborator, with its arguments. */
  datatype Call =
    | LocateImage(pageUrl: string)
    | SaveImage(apiToken: Option<string>, accountId: Option<string>, baseUrl: Option<string>, imageUrl: string)
    | UpdateDocument(field: string, value: string)

  /** Where the handler stopped. */
  datatype Stage = LinkMissing | ImageNotFound | ImageNotSaved | Stored

  /**
   * One invocation: the document afterwards, the calls made in order, the stage
   * reached, and whether the closing log line raised `KeyError` (every path logs
   * `terminal["name"]`).
   */
  datatype Run = Run(document: Document, calls: seq<Call>, stage: Stage, raisesKeyError: bool)

  /** Python truthiness of an optional string: present and non-empty. */
  predicate IsTruthy(v: Option<string>) {
    v.Some? && v.value != ""
  }

  /** `terminal.get("link", None)`, with null read as `None`. */
  function Link(doc: Document): (link: Option<string>)
    ensures link.Some? <==> LinkField in doc && doc[LinkField].Text?
    ensures link.Some? ==> doc[LinkField] == Text(link.value)
  {
    if LinkField in doc && doc[LinkField].Text? then Some(doc[LinkField].text) else None
  }

  /** The hosted URL the upload client returns for this response. */
  function SavedUrl(cfg: Config, imageUrl: string, response: UploadResponse): Option<string> {
    SaveImageInCloudflare(cfg.apiToken, cfg.accountId, cfg.imageBaseUrl, imageUrl, response).hostedUrl
  }

  /**
   * `store_terminal_image`: stop when the link is missing or empty; otherwise
   * locate the image and stop when none is found; otherwise save it and stop
   * when saving yields nothing; otherwise set `terminalImageUrl` to the saved URL.
   */
  function StoreTerminalImage(doc: Document, cfg: Config, located: Option<string>, response: UploadResponse): (run: Run)
    // The stage reached, stage by stage.
    ensures run.stage == LinkMissing <==> !IsTruthy(Link(doc))
    ensures run.stage == ImageNotFound <==> IsTruthy(Link(doc)) && !IsTruthy(located)
    ensures run.stage == ImageNotSaved <==> IsTruthy(Link(doc)) && IsTruthy(located) && response.status != 200
    ensures run.stage == Stored <==> IsTruthy(Link(doc)) && IsTruthy(located) && response.status == 200
    // The document afterwards.
    ensures run.stage != Stored ==> run.document == doc
    ensures run.stage == Stored ==>
              && located.Some? && SavedUrl(cfg, located.value, response).Some?
              && ImageUrlField in run.document
              && run.document[ImageUrlField] == Text(SavedUrl(cfg, located.value, response).value)
    ensures forall f | f != ImageUrlField :: f in run.document <==> f in doc
    ensures forall f | f != ImageUrlField && f in doc :: run.document[f] == doc[f]
    // The closing log line.
    ensures run.raisesKeyError <==> NameField !in doc
  {
    var raises := NameField !in doc;
    var link := Link(doc);
    if !IsTruthy(link) then
      Run(doc, [], LinkMissing, raises)
    else if !IsTruthy(located) then
      Run(doc, [LocateImage(link.value)], ImageNotFound, raises)
    else
      var calls := [LocateImage(link.value), SaveImage(cfg.apiToken, cfg.accountId, cfg.imageBaseUrl, located.value)];
      var saved := SavedUrl(cfg, located.value, response);
      if !IsTruthy(saved) then
        Run(doc, calls, ImageNotSaved, raises)
      else
        Run(doc[ImageUrlField := Text(saved.value)], calls + [UpdateDocument(ImageUrlField, saved.value)], Stored, raises)
  }

  /**
   * The collaborators the handler calls: none without a link; the locator with
   * exactly the link; once the located URL is non-empty, the upload client,
   * second, with the three settings and exactly the located URL; and the
   * update, last and at most once, exactly when the run reaches `Stored`,
   * writing only `terminalImageUrl` with the saved URL.
   */
  lemma StoreTerminalImageCalls(doc: Document, cfg: Config, located: Option<string>, response: UploadResponse)
    ensures var run := StoreTerminalImage(doc, cfg, located, response);
      && (run.stage == LinkMissing ==> run.calls == [])
      && (run.stage != LinkMissing ==> |run.calls| >= 1 && run.calls[0] == LocateImage(Link(doc).value))
      && (run.stage == ImageNotFound ==> |run.calls| == 1)
      && (run.stage in {ImageNotSaved, Stored} ==>
            located.Some? && |run.calls| >= 2
            && run.calls[1] == SaveImage(cfg.apiToken, cfg.accountId, cfg.imageBaseUrl, located.value))
      && (run.stage == ImageNotSaved ==> |run.calls| == 2)
      && (run.stage == Stored ==> |run.calls| == 3)
      && (forall i | 0 <= i < |run.calls| && run.calls[i].LocateImage? :: i == 0)
      && (forall i | 0 <= i < |run.calls| && run.calls[i].SaveImage? ::
            i == 1 && located.Some? && run.calls[i] == SaveImage(cfg.apiToken, cfg.accountId, cfg.imageBaseUrl, located.value))
      && (forall i | 0 <= i < |run.calls| && run.calls[i].UpdateDocument? ::
            i == |run.calls| - 1 && run.stage == Stored && run.calls[i].field == ImageUrlField)
      && ((exists i | 0 <= i < |run.calls| :: run.calls[i].UpdateDocument?) <==> run.stage == Stored)
      && (run.stage == Stored ==>
            run.calls[|run.calls| - 1] == UpdateDocument(ImageUrlField, SavedUrl(cfg, located.value, response).value))
  {
    var run := StoreTerminalImage(doc, cfg, located, response);
    if run.stage == Stored {
      assert run.calls[2].UpdateDocument?;
    }
  }

  /**
   * The record invariant: the document changes only when the link, the located
   * URL and the saved URL are all non-empty, and then it holds the saved URL.
   */
  lemma DocumentChangesOnlyWhenAllStagesSucceed(doc: Document, cfg: Config, located: Option<string>, response: UploadResponse)
    ensures var run := StoreTerminalImage(doc, cfg, located, response);
      run.document != doc ==> IsTruthy(Link(doc)) && IsTruthy(located) && IsTruthy(SavedUrl(cfg, located.value, response))
    ensures var run := StoreTerminalImage(doc, cfg, located, response);
      IsTruthy(Link(doc)) && IsTruthy(located) && IsTruthy(SavedUrl(cfg, located.value, response)) ==>
        run.document == doc[ImageUrlField := Text(SavedUrl(cfg, located.value, response).value)]
  {
  }

  /**
   * The handler writes only `terminalImageUrl`, so the link it reads is the
   * link the document still holds afterwards.
   */
  lemma HandlerKeepsLink(doc: Document, cfg: Config, located: Option<string>, response: UploadResponse)
    ensures Link(StoreTerminalImage(doc, cfg, located, response).document) == Link(doc)
  {
  }

  /** A page whose image cannot be found leaves `terminalImageUrl` as it was, unset included. */
  lemma ImageNotFoundLeavesFieldUnset(doc: Document, cfg: Config, response: UploadResponse)
    requires ImageUrlField !in doc
    ensures ImageUrlField !in StoreTerminalImage(doc, cfg, None, response).document
    ensures StoreTerminalImage(doc, cfg, None, response).stage != Stored
  {
  }
}
