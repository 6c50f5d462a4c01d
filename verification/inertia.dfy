/**
 The Inertia response middleware: it classifies the response produced by the
 rest of the stack, extracts the Inertia page object from it, splits the page
 props into shared and page-specific ones, and records a diagnostic snapshot
 on the request under `telescope_inertia_shared`.

 The collaborators are inputs: `rootView` is what `rootView($request)` returns,
 `shared` is what `share($request)` returns, `basePath` is Laravel's
 `base_path`, and `first`/`second` are the results of the first and (when the
 middleware makes it) second call of `$next`.
 */
module InertiaResponse {
  import opened Wrappers
  import opened Php
  import opened Http

  const InertiaLaravelVersion := "v2.0.2"
  const InertiaCoreVersion := "v2.0.11"
  const InertiaVue3Version := "v2.0.11"

  /** The three ways the middleware can read a response. */
  datatype Kind = Initial | Navigation | PassThrough

  /** Library versions recorded in the snapshot; `assets` is the page's `version`. */
  datatype Versions = Versions(inertiaLaravel: string, inertiaCore: string, inertiaVue3: string, assets: Value)

  /** The `page` part of the snapshot. `componentProps` is `None` where PHP stores `null`. */
  datatype PageInfo = PageInfo(
    props: Value,
    component: Value,
    componentPath: Option<string>,
    componentProps: Option<Entries>)

  /** The array stored under the request attribute `telescope_inertia_shared`. */
  datatype Snapshot = Snapshot(
    rootView: string,
    versions: Versions,
    page: PageInfo,
    clearHistory: Value,
    encryptHistory: Value)

  /**
   What `handle` does: it returns a response, having called `$next` once or twice
   and possibly written the snapshot attribute, or it raises because the page
   object lacks a key it reads (PHP's undefined-key access, which Laravel turns
   into an exception).
   */
  datatype Outcome =
    | Returned(response: Response, nextCalls: nat, attribute: Option<Snapshot>)
    | Threw(undefinedKey: string)

  /**
   `isInitialInertiaResponse` and `isInertiaResponse`, first match wins: a view
   named like the root view is an initial render; otherwise an `x-inertia` header
   whose value is exactly `true` marks a navigation response.
   */
  function Classify(r: Response, rootView: string): (k: Kind)
    ensures k == Initial <==> r.content.View? && r.content.name == rootView
    ensures k == Navigation <==> !(r.content.View? && r.content.name == rootView) && Header(r, "x-inertia") == Some("true")
    ensures k == PassThrough <==> !(r.content.View? && r.content.name == rootView) && Header(r, "x-inertia") != Some("true")
  {
    if r.content.View? && r.content.name == rootView then Initial
    else if Header(r, "x-inertia") == Some("true") then Navigation
    else PassThrough
  }

  /** `$array[$key]`, raising on an undefined key. */
  function Field(a: Entries, key: string): (r: Result<Value, string>)
    ensures r.Success? <==> key in Keys(a)
    ensures r.Success? ==> Get(a, key) == Some(r.value)
    ensures r.Failure? ==> r.error == key
  {
    match Get(a, key)
    case Some(v) => Success(v)
    case None => Failure(key)
  }

  /**
   `getInertiaProperties`: a view's `page` data entry, or the content itself.
   Which classification test passed plays no part.
   */
  function PagePayload(c: Content): (r: Result<Value, string>)
    ensures c.Raw? ==> r == Success(c.value)
    ensures c.View? ==> r == Field(c.data, "page")
  {
    match c
    case View(_, data) => Field(data, "page")
    case Raw(v) => Success(v)
  }

  /** `getPageComponentProps`: the props whose key is not a shared prop's key, or `null` for non-array props. */
  function ComponentProps(props: Value, shared: Entries): (r: Option<Entries>)
    ensures r.None? <==> !props.Arr?
    ensures r.Some? ==> forall k :: k in Keys(r.value) ==> k in Keys(props.entries) && k !in Keys(shared)
    ensures r.Some? ==> forall k :: k in Keys(props.entries) && k !in Keys(shared) ==> k in Keys(r.value)
  {
    if props.Arr? then
      var kept := FilterByKey(props.entries, k => k !in Keys(shared));
      assert forall k :: k in Keys(kept) <==> k in Keys(props.entries) && k !in Keys(shared) by {
        forall k {
          FilterByKeyKeys(props.entries, k => k !in Keys(shared), k);
        }
      }
      Some(kept)
    else None
  }

  /** `component_path`: the page's Vue file when the component is a string. */
  function ComponentPath(component: Value, basePath: string -> string): (r: Option<string>)
    ensures r.Some? <==> component.Str?
    ensures component.Str? ==> r == Some(basePath("resources/js/pages/" + component.s + ".vue"))
  {
    if component.Str? then Some(basePath("resources/js/pages/" + component.s + ".vue")) else None
  }

  /** The root view's Blade template path recorded in the snapshot. */
  function RootViewPath(rootView: string): string {
    "/resources/views/" + rootView + ".blade.php"
  }

  /** The page-object keys the snapshot reads, in reading order. */
  const PageKeys: seq<string> := ["props", "version", "component", "clearHistory", "encryptHistory"]

  predicate HasPageKeys(page: Entries) {
    && "props" in Keys(page)
    && "version" in Keys(page)
    && "component" in Keys(page)
    && "clearHistory" in Keys(page)
    && "encryptHistory" in Keys(page)
  }

  /**
   The snapshot for a page object, reading its keys in the order the middleware
   does: `props`, `version`, `component`, `clearHistory`, `encryptHistory`.
   */
  function BuildSnapshot(page: Entries, rootView: string, shared: Entries, basePath: string -> string): (r: Result<Snapshot, string>)
    ensures r.Success? <==> HasPageKeys(page)
    ensures r.Success? ==>
      && r.value.rootView == RootViewPath(rootView)
      && r.value.versions == Versions(InertiaLaravelVersion, InertiaCoreVersion, InertiaVue3Version, Get(page, "version").value)
      && r.value.page.props == Get(page, "props").value
      && r.value.page.component == Get(page, "component").value
      && r.value.page.componentPath == ComponentPath(r.value.page.component, basePath)
      && r.value.page.componentProps == ComponentProps(r.value.page.props, shared)
      && r.value.clearHistory == Get(page, "clearHistory").value
      && r.value.encryptHistory == Get(page, "encryptHistory").value
    ensures r.Failure? ==> r.error in PageKeys && r.error !in Keys(page)
  {
    var props :- Field(page, "props");
    var version :- Field(page, "version");
    var component :- Field(page, "component");
    var clearHistory :- Field(page, "clearHistory");
    var encryptHistory :- Field(page, "encryptHistory");
    Success(Snapshot(
      RootViewPath(rootView),
      Versions(InertiaLaravelVersion, InertiaCoreVersion, InertiaVue3Version, version),
      PageInfo(props, component, ComponentPath(component, basePath), ComponentProps(props, shared)),
      clearHistory,
      encryptHistory))
  }

  /** `handle`. */
  function Handle(first: Response, second: Response, rootView: string, shared: Entries, basePath: string -> string): (o: Outcome)
    // neither an initial render nor a navigation: a fresh `$next` result, nothing recorded
    ensures Classify(first, rootView) == PassThrough ==> o == Returned(second, 2, None)
    // an Inertia response whose payload is not an array: the first response, nothing recorded
    ensures (Classify(first, rootView) != PassThrough && PagePayload(first.content).Success?
              && !IsArray(PagePayload(first.content).value)) ==> o == Returned(first, 1, None)
    // whenever a snapshot is recorded, the first response is returned untouched
    ensures o.Returned? && o.attribute.Some? ==>
              && o.response == first && o.nextCalls == 1
              && Classify(first, rootView) != PassThrough
              && PagePayload(first.content).Success?
              && IsArray(PagePayload(first.content).value)
              && BuildSnapshot(PagePayload(first.content).value.entries, rootView, shared, basePath) == Success(o.attribute.value)
    // an Inertia response whose page object has every key it reads records its snapshot
    ensures (Classify(first, rootView) != PassThrough && PagePayload(first.content).Success?
              && IsArray(PagePayload(first.content).value)
              && HasPageKeys(PagePayload(first.content).value.entries)) ==>
              o.Returned? && o.response == first && o.nextCalls == 1 && o.attribute.Some?
    // it raises exactly when an Inertia response lacks the view's `page` entry or a page-object key
    ensures o.Threw? <==>
              && Classify(first, rootView) != PassThrough
              && (|| PagePayload(first.content).Failure?
                  || (IsArray(PagePayload(first.content).value)
                      && !HasPageKeys(PagePayload(first.content).value.entries)))
    // and the key it names is one the data or page object lacks
    ensures o.Threw? ==>
              || (o.undefinedKey == "page" && first.content.View? && "page" !in Keys(first.content.data))
              || (&& PagePayload(first.content).Success? && PagePayload(first.content).value.Arr?
                  && o.undefinedKey in PageKeys
                  && o.undefinedKey !in Keys(PagePayload(first.content).value.entries))
    ensures o.Returned? && o.nextCalls == 2 ==> Classify(first, rootView) == PassThrough
  {
    if Classify(first, rootView) == PassThrough then Returned(second, 2, None)
    else
      match PagePayload(first.content)
      case Failure(key) => Threw(key)
      case Success(payload) =>
        if !IsArray(payload) then Returned(first, 1, None)
        else
          match BuildSnapshot(payload.entries, rootView, shared, basePath)
          case Failure(key) => Threw(key)
          case Success(snapshot) => Returned(first, 1, Some(snapshot))
  }

  // ---------------------------------------------------------------------------
  // Properties of the prop split

  /**
   A key of the page-specific props reads exactly as in the full props, unless it
   is a shared key, which is absent.
   */
  lemma ComponentPropsGet(props: Entries, shared: Entries, k: string)
    ensures Get(ComponentProps(Arr(props), shared).value, k) == if k in Keys(shared) then None else Get(props, k)
  {
    FilterByKeyGet(props, k => k !in Keys(shared), k);
  }

  /** The split keeps the props' order: splitting a concatenation concatenates the splits. */
  lemma ComponentPropsOrder(a: Entries, b: Entries, shared: Entries)
    ensures ComponentProps(Arr(a + b), shared).value
         == ComponentProps(Arr(a), shared).value + ComponentProps(Arr(b), shared).value
  {
    FilterByKeyAppend(a, b, k => k !in Keys(shared));
  }

  /** With nothing shared, the page-specific props are all the props. */
  lemma ComponentPropsNothingShared(props: Entries)
    ensures ComponentProps(Arr(props), []) == Some(props)
  {
    FilterByKeyKeepsAll(props, k => k !in Keys([]));
  }

  /** A PHP array (distinct keys) yields a PHP array. */
  lemma ComponentPropsDistinct(props: Entries, shared: Entries)
    requires DistinctKeys(props)
    ensures DistinctKeys(ComponentProps(Arr(props), shared).value)
  {
    FilterByKeyDistinct(props, k => k !in Keys(shared));
  }

  /** The split of `{a: 1, shared: 2}` against shared props `{shared: 2}` is `{a: 1}`. */
  lemma SplitExample()
    ensures ComponentProps(Arr([("a", Int(1)), ("shared", Int(2))]), [("shared", Int(2))]) == Some([("a", Int(1))])
  {
    var a: Entries := [("a", Int(1))];
    var sh: Entries := [("shared", Int(2))];
    assert [("a", Int(1)), ("shared", Int(2))] == a + sh;
    assert Keys(sh) == ["shared"];
    var keep := k => k !in Keys(sh);
    FilterByKeyKeepsAll(a, keep);
    assert FilterByKey(sh, keep) == [] by {
      assert Seqs.Filter(sh, (e: (string, Value)) => keep(e.0)) == [] + Seqs.Filter(sh[1..], (e: (string, Value)) => keep(e.0));
    }
    FilterByKeyAppend(a, sh, keep);
  }

  lemma ExamplePageReads(page: Entries)
    requires page == [("component", Str("X")), ("props", Arr([("a", Int(1)), ("shared", Int(2))])), ("version", Str("v1")),
                      ("clearHistory", Bool(false)), ("encryptHistory", Bool(false))]
    ensures Get(page, "props") == Some(Arr([("a", Int(1)), ("shared", Int(2))]))
    ensures Get(page, "component") == Some(Str("X"))
    ensures Get(page, "version") == Some(Str("v1"))
    ensures Get(page, "clearHistory") == Some(Bool(false))
    ensures Get(page, "encryptHistory") == Some(Bool(false))
  {
    var tail2 := page[2..];
    var tail4 := page[4..];
    assert Get(page, "version") == Get(tail2, "version");
    assert Get(page, "clearHistory") == Get(tail2, "clearHistory");
    assert Get(page, "encryptHistory") == Get(tail2, "encryptHistory") == Get(tail4, "encryptHistory");
  }

  /**
   A navigation response with props `{a: 1, shared: 2}` and a shared-props
   provider returning `{shared: 2}` records page-specific props `{a: 1}`, the
   full props unchanged, and the component's file path.
   */
  lemma NavigationExample(basePath: string -> string, page: Entries, first: Response)
    requires page == [("component", Str("X")), ("props", Arr([("a", Int(1)), ("shared", Int(2))])), ("version", Str("v1")),
                      ("clearHistory", Bool(false)), ("encryptHistory", Bool(false))]
    requires first == Response(200, Raw(Arr(page)), map["x-inertia" := "true"])
    ensures Handle(first, first, "app", [("shared", Int(2))], basePath)
         == Returned(first, 1, Some(Snapshot(
              RootViewPath("app"),
              Versions("v2.0.2", "v2.0.11", "v2.0.11", Str("v1")),
              PageInfo(Arr([("a", Int(1)), ("shared", Int(2))]), Str("X"),
                       Some(basePath("resources/js/pages/" + "X" + ".vue")), Some([("a", Int(1))])),
              Bool(false), Bool(false))))
  {
    SplitExample();
    ExamplePageReads(page);
    assert Classify(first, "app") == Navigation;
  }

  /**
   The recorded snapshot depends on the response's content, not on which test
   classified it: two Inertia responses with equal content record the same
   snapshot, or fail on the same key.
   */
  lemma SnapshotIgnoresClassification(
    f1: Response, f2: Response, second: Response, rootView: string, shared: Entries, basePath: string -> string)
    requires f1.content == f2.content
    requires Classify(f1, rootView) != PassThrough && Classify(f2, rootView) != PassThrough
    ensures Handle(f1, second, rootView, shared, basePath).Threw? == Handle(f2, second, rootView, shared, basePath).Threw?
    ensures Handle(f1, second, rootView, shared, basePath).Threw? ==>
              Handle(f1, second, rootView, shared, basePath) == Handle(f2, second, rootView, shared, basePath)
    ensures Handle(f1, second, rootView, shared, basePath).Returned? ==>
              Handle(f1, second, rootView, shared, basePath).attribute == Handle(f2, second, rootView, shared, basePath).attribute
  {
  }

  /**
   Every recorded snapshot satisfies the split invariant: page-specific keys are
   props keys, none of them shared, and every unshared props key is among them.
   */
  lemma RecordedSplitInvariant(first: Response, second: Response, rootView: string, shared: Entries, basePath: string -> string)
    requires Handle(first, second, rootView, shared, basePath).Returned?
    requires Handle(first, second, rootView, shared, basePath).attribute.Some?
    ensures
      var page := Handle(first, second, rootView, shared, basePath).attribute.value.page;
      && (page.componentProps.None? <==> !page.props.Arr?)
      && (page.componentProps.Some? ==> forall k :: k in Keys(page.componentProps.value) <==>
                                          k in Keys(page.props.entries) && k !in Keys(shared))
      && (page.componentPath.Some? <==> page.component.Str?)
  {
  }
}
