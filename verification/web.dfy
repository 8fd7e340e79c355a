/** The parts of a Freenet HTTP request the pages read. */
module Web {
  import opened Wrappers

  datatype Method = GetMethod | PostMethod | OtherMethod

  /** `verb` is the HTTP method, `params` are the URL (GET) parameters, `parts` the POST form parts;
      `fullAccess` is whether the toadlet context allows full access. */
  datatype Request = Request(verb: Method, fullAccess: bool, params: map<string, string>, parts: map<string, string>)

  /** Sone's `request.parameters[name]`: the parameter, or null when missing. */
  function Parameter(request: Request, name: string): (r: Option<string>)
    ensures r.Some? <==> name in request.params
    ensures r.Some? ==> r.value == request.params[name]
  {
    Lookup(request.params, name)
  }

  /** `httpRequest.getParam(name)`: the parameter, or the empty string when missing. */
  function GetParam(request: Request, name: string): (r: string)
    ensures name in request.params ==> r == request.params[name]
    ensures name !in request.params ==> r == ""
  {
    Lookup(request.params, name).GetOr("")
  }

  /** `httpRequest.getPartAsStringFailsafe(name, limit)`: the form part cut
      to at most `limit` characters, or the empty string when missing. */
  function PartFailsafe(request: Request, name: string, limit: nat): (r: string)
    ensures |r| <= limit
    ensures name !in request.parts ==> r == ""
    ensures name in request.parts ==> r <= request.parts[name]
    ensures name in request.parts && |request.parts[name]| <= limit ==> r == request.parts[name]
    // a longer part keeps exactly its first `limit` characters
    ensures name in request.parts && |request.parts[name]| > limit ==> |r| == limit
  {
    if name !in request.parts then ""
    else
      var p := request.parts[name];
      if |p| <= limit then p else p[..limit]
  }

  /** `httpRequest.isPartSet(name)`. */
  predicate IsPartSet(request: Request, name: string) {
    name in request.parts
  }
}
