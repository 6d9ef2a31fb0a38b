/** The `navigateTo` action of the client: navigate to an external URL or to
    a page of the application, in the same window or a new one. The browser
    calls it would make are returned as a list of effects. */
module Navigate {
  import opened Wrappers

  datatype Page = Page(pageName: string, pageId: string)

  datatype AppMode = Edit | Published

  /** The navigation target; the action may carry any string. */
  datatype Target = SameWindow | NewWindow | OtherTarget(name: string)

  /** `window.location.assign`, `window.open(…, "_blank")`, `history.push`,
      and a call of `setDataUrl`. */
  datatype NavEffect = AssignLocation(url: string) | OpenWindow(url: string) | PushHistory(path: string) | SetDataUrl

  /** What the action reads from the store and the route builders:
      `isValidUrl` is the URL-shaped test, `queryString` the query built
      from the action's params, `builderUrl`/`viewerUrl` the page paths for a
      page id with those params. */
  datatype NavContext = NavContext(
    pages: seq<Page>,
    currentPageId: string,
    appMode: AppMode,
    isValidUrl: string -> bool,
    queryString: string,
    builderUrl: string -> string,
    viewerUrl: string -> string)

  const NavigateFailure := "Enter a valid URL or page name"
  const DefaultScheme := "https://"

  /** `isValidUrlScheme`: the URL starts with one of the schemes the action
      passes through. */
  predicate IsValidUrlScheme(url: string) {
    "http://" <= url || "https://" <= url || "mailto:" <= url || "tel:" <= url
  }

  /** The URL the action navigates to: unchanged when its scheme is known,
      otherwise with `https://` in front. */
  function NormaliseUrl(url: string): (r: string)
    ensures IsValidUrlScheme(r)
    ensures IsValidUrlScheme(url) ==> r == url
    ensures !IsValidUrlScheme(url) ==> r == DefaultScheme + url
  {
    if IsValidUrlScheme(url) then url
    else
      assert DefaultScheme <= DefaultScheme + url;
      DefaultScheme + url
  }

  /** Normalising twice is normalising once. */
  lemma NormaliseIdempotent(url: string)
    ensures NormaliseUrl(NormaliseUrl(url)) == NormaliseUrl(url)
  {
  }

  /** The index of the first page named exactly `name`, or `|pages|`. */
  function PageIndex(pages: seq<Page>, name: string): (i: nat)
    ensures i <= |pages|
    ensures forall k :: 0 <= k < i ==> pages[k].pageName != name
    ensures i < |pages| ==> pages[i].pageName == name
    decreases |pages|
  {
    if pages == [] then 0
    else if pages[0].pageName == name then 0
    else 1 + PageIndex(pages[1..], name)
  }

  /** `isValidPageName`: the first page whose name equals the input exactly. */
  function FindPage(name: string, pages: seq<Page>): (r: Option<Page>)
    ensures r.None? <==> forall k :: 0 <= k < |pages| ==> pages[k].pageName != name
    ensures r.Some? ==> exists i :: 0 <= i < |pages| && pages[i] == r.value
                                    && r.value.pageName == name
                                    && forall k :: 0 <= k < i ==> pages[k].pageName != name
  {
    var i := PageIndex(pages, name);
    if i < |pages| then Some(pages[i]) else None
  }

  /** The path of a page in the current mode. */
  function PagePath(ctx: NavContext, page: Page): string {
    if ctx.appMode == Edit then ctx.builderUrl(page.pageId) else ctx.viewerUrl(page.pageId)
  }

  /** `navigateActionSaga` once the store has been read: a URL-shaped input
      is an external navigation even when a page has that name; otherwise a
      page named exactly so is an internal one; otherwise the action fails.
      The target defaults to the same window, and a target that is neither
      window does nothing. */
  function NavigateAction(ctx: NavContext, pageNameOrUrl: string, target: Option<Target>): (r: Result<seq<NavEffect>, string>)
    ensures r.Err? <==> !ctx.isValidUrl(pageNameOrUrl) && FindPage(pageNameOrUrl, ctx.pages).None?
    ensures r.Err? ==> r.error == NavigateFailure
    ensures r.Ok? ==> |r.value| <= 2
    ensures ctx.isValidUrl(pageNameOrUrl) && r.Ok? ==>
              forall k :: 0 <= k < |r.value| ==>
                (r.value[k].AssignLocation? || r.value[k].OpenWindow?) && IsValidUrlScheme(r.value[k].url)
    ensures r.Ok? ==> (SetDataUrl in r.value <==>
              && !ctx.isValidUrl(pageNameOrUrl)
              && target.GetOr(SameWindow) == SameWindow
              && FindPage(pageNameOrUrl, ctx.pages).value.pageId == ctx.currentPageId)
    ensures r.Ok? && target.GetOr(SameWindow).OtherTarget? ==> r.value == []
    ensures !ctx.isValidUrl(pageNameOrUrl) && FindPage(pageNameOrUrl, ctx.pages).Some? && target == Some(NewWindow) ==>
              r == Ok([OpenWindow(PagePath(ctx, FindPage(pageNameOrUrl, ctx.pages).value))])
  {
    var t := target.GetOr(SameWindow);
    if ctx.isValidUrl(pageNameOrUrl) then
      var url := NormaliseUrl(pageNameOrUrl + ctx.queryString);
      Ok(match t
         case SameWindow => [AssignLocation(url)]
         case NewWindow => [OpenWindow(url)]
         case OtherTarget(_) => [])
    else
      match FindPage(pageNameOrUrl, ctx.pages)
      case None => Err(NavigateFailure)
      case Some(page) =>
        var path := PagePath(ctx, page);
        Ok(match t
           case SameWindow => [PushHistory(path)] + (if ctx.currentPageId == page.pageId then [SetDataUrl] else [])
           case NewWindow => [OpenWindow(path)]
           case OtherTarget(_) => [])
  }

  /** The default target is the same window. */
  lemma DefaultTargetIsSameWindow(ctx: NavContext, pageNameOrUrl: string)
    ensures NavigateAction(ctx, pageNameOrUrl, None) == NavigateAction(ctx, pageNameOrUrl, Some(SameWindow))
  {
  }

  /** The URL check comes first: a URL-shaped input that is also the name of
      a page navigates away to the URL and never to the page. */
  lemma UrlTakesPrecedence(ctx: NavContext, pageNameOrUrl: string, target: Option<Target>)
    requires ctx.isValidUrl(pageNameOrUrl)
    requires FindPage(pageNameOrUrl, ctx.pages).Some?
    ensures var r := NavigateAction(ctx, pageNameOrUrl, target);
            && r.Ok?
            && (forall k :: 0 <= k < |r.value| ==> !r.value[k].PushHistory? && r.value[k] != SetDataUrl)
            && (target.GetOr(SameWindow) == SameWindow ==>
                  r.value == [AssignLocation(NormaliseUrl(pageNameOrUrl + ctx.queryString))])
  {
  }

  /** An internal navigation in the same window pushes the page's path for
      the current mode, and refreshes the page data exactly when the page is
      the current one. */
  lemma PageNavigation(ctx: NavContext, pageNameOrUrl: string, page: Page)
    requires !ctx.isValidUrl(pageNameOrUrl)
    requires FindPage(pageNameOrUrl, ctx.pages) == Some(page)
    ensures var r := NavigateAction(ctx, pageNameOrUrl, None);
            && r.Ok? && |r.value| >= 1
            && r.value[0] == PushHistory(if ctx.appMode == Edit then ctx.builderUrl(page.pageId) else ctx.viewerUrl(page.pageId))
            && (|r.value| == 2 <==> page.pageId == ctx.currentPageId)
  {
  }

  /** An external URL keeps its known scheme, or gets `https://` otherwise;
      the query string always follows the input. The same window (also the
      default) assigns the location to it, and a new window opens it. */
  lemma ExternalUrl(ctx: NavContext, pageNameOrUrl: string, target: Option<Target>)
    requires ctx.isValidUrl(pageNameOrUrl)
    requires !target.GetOr(SameWindow).OtherTarget?
    ensures var r := NavigateAction(ctx, pageNameOrUrl, target);
            var full := pageNameOrUrl + ctx.queryString;
            var url := if IsValidUrlScheme(full) then full else DefaultScheme + full;
            r == Ok([if target == Some(NewWindow) then OpenWindow(url) else AssignLocation(url)])
  {
  }
}
