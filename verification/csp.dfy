/**
 The application's Content-Security-Policy middleware: after the rest of the
 stack has produced a response, it decides through a fixed sequence of guards
 whether to add the `Content-Security-Policy` and
 `Content-Security-Policy-Report-Only` headers, and with what value.

 The policy library is opaque: `PolicyLibrary` gives, for each way of creating
 a policy, the rendered header value and whether the policy is empty. The
 `csp.*` configuration values are inputs.
 */
module Csp {
  import opened Php
  import opened Http

  const CspHeader := "Content-Security-Policy"
  const ReportOnlyHeader := "Content-Security-Policy-Report-Only"

  /** The `csp.*` configuration entries the middleware reads. */
  datatype Config = Config(
    enabled: Value,
    presets: Value,
    directives: Value,
    reportOnlyPresets: Value,
    reportOnlyDirectives: Value,
    reportUri: Value)

  /** How a policy is created: from one preset class, or from presets, directives and a report URI. */
  datatype PolicySource =
    | FromPreset(preset: Value)
    | FromConfig(presets: Value, directives: Value, reportUri: Value)

  /** The policy library's two observations of a created policy. */
  datatype PolicyLibrary = PolicyLibrary(contents: PolicySource -> string, isEmpty: PolicySource -> bool)

  /** The argument of `hasCspHeader`, which accepts any value. */
  datatype Subject = IsResponse(response: Response) | NotResponse

  /** What `handle` decides, one alternative per exit of its guard sequence. */
  datatype Decision =
    | SkipDisabled
    | SkipServerError
    | SkipExistingHeader
    | ApplyPreset(preset: Value)
    | ApplyConfig

  /** Symfony's `isServerError`. */
  predicate IsServerError(r: Response) {
    500 <= r.status < 600
  }

  /** `hasCspHeader`. */
  function HasCspHeader(x: Subject): (b: bool)
    ensures x.NotResponse? ==> !b
    ensures x.IsResponse? ==> (b <==> CspHeader in x.response.headers || ReportOnlyHeader in x.response.headers)
  {
    match x
    case NotResponse => false
    case IsResponse(r) => CspHeader in r.headers || ReportOnlyHeader in r.headers
  }

  /** The guards of `handle`, first match wins: disabled, server error, header present, custom preset. */
  function Decide(r: Response, cfg: Config, customPreset: Value): (d: Decision)
    ensures d == SkipDisabled <==> Empty(cfg.enabled)
    ensures d == SkipServerError <==> !Empty(cfg.enabled) && IsServerError(r)
    ensures d == SkipExistingHeader <==>
              !Empty(cfg.enabled) && !IsServerError(r) && HasCspHeader(IsResponse(r))
    ensures d.ApplyPreset? <==>
              !Empty(cfg.enabled) && !IsServerError(r) && !HasCspHeader(IsResponse(r)) && !Empty(customPreset)
    ensures d.ApplyPreset? ==> d.preset == customPreset
    ensures d == ApplyConfig <==>
              !Empty(cfg.enabled) && !IsServerError(r) && !HasCspHeader(IsResponse(r)) && Empty(customPreset)
  {
    if Empty(cfg.enabled) then SkipDisabled
    else if IsServerError(r) then SkipServerError
    else if HasCspHeader(IsResponse(r)) then SkipExistingHeader
    else if !Empty(customPreset) then ApplyPreset(customPreset)
    else ApplyConfig
  }

  /** The enforced policy built from configuration. */
  function MainPolicy(cfg: Config): PolicySource {
    FromConfig(cfg.presets, cfg.directives, cfg.reportUri)
  }

  /** The report-only policy built from configuration. */
  function ReportOnlyPolicy(cfg: Config): PolicySource {
    FromConfig(cfg.reportOnlyPresets, cfg.reportOnlyDirectives, cfg.reportUri)
  }

  /** `$headers->set($name, $contents)` when `cond` holds. */
  function SetIf(headers: map<string, string>, cond: bool, name: string, contents: string): map<string, string> {
    if cond then headers[name := contents] else headers
  }

  /** `handle`. */
  function AddCspHeaders(r: Response, cfg: Config, customPreset: Value, lib: PolicyLibrary): (out: Response)
    // only headers may change, and only the two CSP headers
    ensures out.status == r.status && out.content == r.content
    ensures forall h :: h != CspHeader && h != ReportOnlyHeader ==>
              (h in out.headers <==> h in r.headers) && (h in r.headers ==> out.headers[h] == r.headers[h])
    // each guard that stops the middleware leaves the response as it was
    ensures Empty(cfg.enabled) ==> out == r
    ensures IsServerError(r) ==> out == r
    ensures HasCspHeader(IsResponse(r)) ==> out == r
    // a custom preset sets exactly the enforced header, whatever the policy holds
    ensures Decide(r, cfg, customPreset).ApplyPreset? ==>
              out.headers == r.headers[CspHeader := lib.contents(FromPreset(customPreset))]
    // without one, each header is present iff its policy is non-empty
    ensures Decide(r, cfg, customPreset) == ApplyConfig ==>
              && (CspHeader in out.headers <==> !lib.isEmpty(MainPolicy(cfg)))
              && (CspHeader in out.headers ==> out.headers[CspHeader] == lib.contents(MainPolicy(cfg)))
              && (ReportOnlyHeader in out.headers <==> !lib.isEmpty(ReportOnlyPolicy(cfg)))
              && (ReportOnlyHeader in out.headers ==> out.headers[ReportOnlyHeader] == lib.contents(ReportOnlyPolicy(cfg)))
  {
    match Decide(r, cfg, customPreset)
    case SkipDisabled => r
    case SkipServerError => r
    case SkipExistingHeader => r
    case ApplyPreset(preset) =>
      r.(headers := r.headers[CspHeader := lib.contents(FromPreset(preset))])
    case ApplyConfig =>
      var main := MainPolicy(cfg);
      var reportOnly := ReportOnlyPolicy(cfg);
      var h1 := SetIf(r.headers, !lib.isEmpty(main), CspHeader, lib.contents(main));
      var h2 := SetIf(h1, !lib.isEmpty(reportOnly), ReportOnlyHeader, lib.contents(reportOnly));
      r.(headers := h2)
  }

  /** Both configured policies report to the same `csp.report_uri`. */
  lemma SharedReportUri(cfg: Config)
    ensures MainPolicy(cfg).reportUri == ReportOnlyPolicy(cfg).reportUri == cfg.reportUri
  {
  }

  /**
   Running the middleware on its own output changes nothing: once it has added a
   header, the existing-header guard stops it, and when it added none, the same
   decisions are taken again.
   */
  lemma AddCspHeadersIdempotent(r: Response, cfg: Config, customPreset: Value, lib: PolicyLibrary)
    ensures AddCspHeaders(AddCspHeaders(r, cfg, customPreset, lib), cfg, customPreset, lib)
         == AddCspHeaders(r, cfg, customPreset, lib)
  {
    var out := AddCspHeaders(r, cfg, customPreset, lib);
    if Decide(r, cfg, customPreset).ApplyPreset? {
      assert HasCspHeader(IsResponse(out));
    } else if Decide(r, cfg, customPreset) == ApplyConfig {
      if CspHeader in out.headers || ReportOnlyHeader in out.headers {
        assert HasCspHeader(IsResponse(out));
      } else {
        assert out.headers == r.headers by {
          assert forall h :: h in out.headers <==> h in r.headers;
        }
        assert out == r;
      }
    }
  }
}
