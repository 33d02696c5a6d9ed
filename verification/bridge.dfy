/** The browser extension's side of the bridge: classifying the active tab's URL and the
    context-change payload it sends to the desktop listener. Tab events, reconnection and
    the socket itself are outside the model. */
module Bridge {
  import opened Types
  import opened Strings
  import WebListener

  const FIGMA_FILE: string := "figma.com/file"
  const FIGMA_DESIGN: string := "figma.com/design"
  const PHOTOSHOP_WEB: string := "photoshop.adobe.com"
  const FIGMA: string := "figma"
  const PHOTOSHOP: string := "photoshop"

  /** The design tool a tab URL belongs to. A missing or empty URL, and any URL that
      matches no tool, gives "null"; Figma is checked before Photoshop. */
  function DetectApp(url: Option<string>): (app: string)
    ensures app == FIGMA || app == PHOTOSHOP || app == WebListener.NULL_APP
    ensures app == FIGMA <==> url.Some? && (Contains(url.value, FIGMA_FILE) || Contains(url.value, FIGMA_DESIGN))
    ensures app == PHOTOSHOP <==>
              url.Some? && !Contains(url.value, FIGMA_FILE) && !Contains(url.value, FIGMA_DESIGN)
              && Contains(url.value, PHOTOSHOP_WEB)
  {
    match url
    case None => WebListener.NULL_APP
    case Some(u) =>
      if u == "" then WebListener.NULL_APP
      else if Contains(u, FIGMA_FILE) || Contains(u, FIGMA_DESIGN) then FIGMA
      else if Contains(u, PHOTOSHOP_WEB) then PHOTOSHOP
      else WebListener.NULL_APP
  }

  /** The JSON object the extension sends; a missing URL is left out of the object. */
  datatype Payload = Payload(event: string, app: string, url: Option<string>)

  /** The payload for a tab, sent only while the socket is open. */
  function SendContext(socketOpen: bool, app: string, url: Option<string>): (p: Option<Payload>)
    ensures p.Some? <==> socketOpen
    ensures p.Some? ==> p.value.event == WebListener.CONTEXT_CHANGE && p.value.app == app && p.value.url == url
  {
    if socketOpen then Some(Payload(WebListener.CONTEXT_CHANGE, app, url)) else None
  }

  /** What the listener reads from a payload: its "event" and "app" entries. */
  function Received(p: Payload): WebListener.Message
  {
    WebListener.Message(Some(p.event), Some(p.app))
  }

  /** End to end: once the listener handles the payload for a tab, it holds none exactly
      when the tab is no design tool, and otherwise the tool the URL names. */
  lemma TabReachesListener(st: WebListener.ListenerState, url: Option<string>, at: int)
    ensures var p := SendContext(true, DetectApp(url), url).value;
            var st' := WebListener.HandleMessage(st, Received(p), at);
            && (st'.currentWebApp.None? <==> DetectApp(url) == WebListener.NULL_APP)
            && (st'.currentWebApp.Some? ==> st'.currentWebApp.value == DetectApp(url))
            && st'.lastUpdateTime == at
  {
  }

  /** The two Figma editors and Photoshop on the web are recognised; other pages are not. */
  lemma DetectExamples()
    ensures DetectApp(Some("https://www.figma.com/design/abc")) == FIGMA
    ensures DetectApp(None) == WebListener.NULL_APP
    ensures DetectApp(Some("")) == WebListener.NULL_APP
  {
    var u := "https://www.figma.com/design/abc";
    assert WebListener.NULL_APP != FIGMA;
    assert OccursAt(u, FIGMA_DESIGN, 12);
    ContainsAt(u, FIGMA_DESIGN);
  }
}
