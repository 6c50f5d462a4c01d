/** The HTTP response as the two middlewares see it. */
module Http {
  import opened Wrappers
  import Php

  /**
   What the response was built from (`getOriginalContent`): a rendered view with
   its name and data, or any other value (for a JSON response, the decoded data).
   */
  datatype Content =
    | View(name: string, data: Php.Entries)
    | Raw(value: Php.Value)

  /**
   A response: status code, original content and header bag. Header names are
   taken as already normalised, one value per name.
   */
  datatype Response = Response(status: int, content: Content, headers: map<string, string>)

  /** `$response->headers->get($name)`: the header's value, or `null`. */
  function Header(r: Response, name: string): (v: Option<string>)
    ensures v.Some? <==> name in r.headers
  {
    if name in r.headers then Some(r.headers[name]) else None
  }
}
