/** The response headers the nonce edge function writes: the debug marker, and
    the merged policy on the header the selection picks. Header names are the
    lower-case keys of a map, one value per name. */
module Handler {
  import opened Wrappers
  import opened Text
  import opened CspMerge
  import opened CspMergeProperties
  import opened HeaderSelection

  type Headers = map<string, string>

  /** The header that marks responses the function has seen. */
  const DebugHeader: string := "x-debug-csp-nonce"

  /** `headers.get(name)`: the value, or nothing when the header is absent. */
  function Get(headers: Headers, name: string): Option<string> {
    if name in headers then Some(headers[name]) else None
  }

  /** The headers of the response after the handler: the debug marker is set, and
      the selected header holds the merge of its old value with the nonce's
      directives. */
  function HandleHeaders(headers: Headers, dist: Option<Distribution>, random: real, nonce: string): (r: Headers)
    requires 0.0 <= random < 1.0
    requires IsNonce(nonce)
    ensures headers.Keys <= r.Keys
    ensures DebugHeader in r && r[DebugHeader] == "invoked"
    ensures Select(dist, random).header.Name() in r
  {
    NamesDistinct();
    var marked := headers[DebugHeader := "invoked"];
    match Select(dist, random)
    case Unmodified => marked
    case Apply(header) =>
      marked[header.Name() := MergeCsp(Get(marked, header.Name()), nonce)]
  }

  /** The two policy headers and the debug header have different names. */
  lemma NamesDistinct()
    ensures Enforcing.Name() != ReportOnly.Name()
    ensures Enforcing.Name() != DebugHeader && ReportOnly.Name() != DebugHeader
  {
    assert Enforcing.Name()[0] != DebugHeader[0];
    assert ReportOnly.Name()[0] != DebugHeader[0];
    assert |Enforcing.Name()| != |ReportOnly.Name()|;
  }

  /** What the handler writes: the debug marker; on the selected header the merge
      of that header's old value; the other policy header and every other header
      as they were. */
  lemma HandleHeadersWrites(headers: Headers, dist: Option<Distribution>, random: real, nonce: string)
    requires 0.0 <= random < 1.0
    requires IsNonce(nonce)
    ensures var r := HandleHeaders(headers, dist, random, nonce);
      var chosen := Select(dist, random).header;
      var other := if chosen == Enforcing then ReportOnly else Enforcing;
      && r.Keys == headers.Keys + {DebugHeader, chosen.Name()}
      && r[DebugHeader] == "invoked"
      && r[chosen.Name()] == MergeCsp(Get(headers, chosen.Name()), nonce)
      && Get(r, other.Name()) == Get(headers, other.Name())
      && forall k :: k in headers && k != DebugHeader && k != chosen.Name() ==> r[k] == headers[k]
  {
    var chosen := Select(dist, random).header;
    var other := if chosen == Enforcing then ReportOnly else Enforcing;
    NamesDistinct();
    var value := MergeCsp(Get(headers, chosen.Name()), nonce);
    MarkThenSet(headers, chosen.Name(), value, other.Name());
  }

  /** Setting the debug marker and then one other header changes those two and
      nothing else. */
  lemma MarkThenSet(headers: Headers, name: string, value: string, other: string)
    requires name != DebugHeader && other != DebugHeader && other != name
    ensures var r := headers[DebugHeader := "invoked"][name := value];
      && Get(headers[DebugHeader := "invoked"], name) == Get(headers, name)
      && r.Keys == headers.Keys + {DebugHeader, name}
      && r[DebugHeader] == "invoked"
      && r[name] == value
      && Get(r, other) == Get(headers, other)
      && forall k :: k in headers && k != DebugHeader && k != name ==> r[k] == headers[k]
  {
  }

  /** The policy the handler writes always re-reads, split on `;` and trimmed, as
      a list of well-formed directives that holds a `script-src ` directive led by
      the nonce's directive and a `report-uri` directive. */
  lemma HandleHeadersInstallsNonce(headers: Headers, dist: Option<Distribution>, random: real, nonce: string)
    requires 0.0 <= random < 1.0
    requires IsNonce(nonce)
    ensures var name := Select(dist, random).header.Name();
      var r := HandleHeaders(headers, dist, random, nonce);
      name in r &&
      var ds := TrimAll(Split(r[name], ';'));
      && (forall i :: 0 <= i < |ds| ==> IsDirective(ds[i]))
      && HasPrefixed(ds, ScriptSrcPrefix)
      && HasPrefixed(ds, ReportUriPrefix)
      && (forall i :: 0 <= i < |ds| && StartsWith(ds[i], ScriptSrcPrefix) ==> StartsWith(ds[i], ScriptSrc(nonce)))
  {
    HandleHeadersWrites(headers, dist, random, nonce);
    MergeCspReadsBack(Get(headers, Select(dist, random).header.Name()), nonce);
  }

}
