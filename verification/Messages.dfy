/** HTTP messages, and building them from HTTP/2 and HTTP/3 field lists. */
module Messages {
  import opened Basics
  import opened Hpack
  import opened Scan

  datatype HTTPRequest = HTTPRequest(method_: string, path: string, version: string,
                                     headers: map<string, string>, body: Bytes)

  datatype HTTPResponse = HTTPResponse(version: string, status: string, code: int,
                                       headers: map<string, string>, body: Bytes)

  // ---------- the specification ----------

  function Separator(name: string): string {
    if name == "cookie" then "; " else ", "
  }

  /** The header a request field is folded into, if any. */
  function RequestKey(name: string): Option<string> {
    if name == ":authority" then Some("host")
    else if ":" <= name then None
    else Some(name)
  }

  function ResponseKey(name: string): Option<string> {
    if ":" <= name then None else Some(name)
  }

  /** The values of the fields folded into `key`, in field order. */
  function ValuesOf(keyOf: string -> Option<string>, fields: seq<Field>, key: string): seq<string> {
    if fields == [] then []
    else
      var last := fields[|fields| - 1];
      ValuesOf(keyOf, fields[..|fields| - 1], key) + if keyOf(last.name) == Some(key) then [last.value] else []
  }

  function Join(values: seq<string>, separator: string): string
    requires values != []
  {
    if |values| == 1 then values[0]
    else Join(values[..|values| - 1], separator) + separator + values[|values| - 1]
  }

  lemma JoinSnoc(values: seq<string>, value: string, separator: string)
    ensures Join(values + [value], separator) ==
            if values == [] then value else Join(values, separator) + separator + value
  {
    assert (values + [value])[..|values|] == values;
  }

  /** Each header is the in-order join of its values, "; " for cookie (section 8.2.3 of RFC 9113) and
      ", " otherwise (section 5.3 of RFC 9110); there is no other header. */
  ghost predicate Folded(keyOf: string -> Option<string>, fields: seq<Field>, headers: map<string, string>) {
    forall key: string ::
      var values := ValuesOf(keyOf, fields, key);
      if values == [] then key !in headers
      else key in headers && headers[key] == Join(values, Separator(key))
  }

  /** The last value of a pseudo-header, or the empty string. */
  function LastValue(fields: seq<Field>, name: string): string {
    if fields == [] then ""
    else if fields[|fields| - 1].name == name then fields[|fields| - 1].value
    else LastValue(fields[..|fields| - 1], name)
  }

  /** The status code: that of the last `:status` field that starts with a number. */
  function LastCode(fields: seq<Field>): int {
    if fields == [] then 0
    else
      var last := fields[|fields| - 1];
      if last.name == ":status" && ScanInt(last.value, 10).Some? then ScanInt(last.value, 10).value
      else LastCode(fields[..|fields| - 1])
  }

  function AddHeader(headers: map<string, string>, name: string, value: string): map<string, string> {
    if name in headers then headers[name := headers[name] + Separator(name) + value]
    else headers[name := value]
  }

  function FoldHeaders(keyOf: string -> Option<string>, fields: seq<Field>): map<string, string> {
    if fields == [] then map[]
    else
      var init, last := FoldHeaders(keyOf, fields[..|fields| - 1]), fields[|fields| - 1];
      match keyOf(last.name)
      case None => init
      case Some(key) => AddHeader(init, key, last.value)
  }

  lemma {:induction false} FoldHeadersIsFolded(keyOf: string -> Option<string>, fields: seq<Field>)
    ensures Folded(keyOf, fields, FoldHeaders(keyOf, fields))
  {
    if fields != [] {
      var init, last := fields[..|fields| - 1], fields[|fields| - 1];
      FoldHeadersIsFolded(keyOf, init);
      forall key: string
        ensures var values := ValuesOf(keyOf, fields, key);
                var headers := FoldHeaders(keyOf, fields);
                if values == [] then key !in headers
                else key in headers && headers[key] == Join(values, Separator(key))
      {
        var before := ValuesOf(keyOf, init, key);
        JoinSnoc(before, last.value, Separator(key));
        assert before + [] == before;
      }
    }
  }

  /** Folding determines the headers: two maps folded from one field list are the same map. */
  lemma FoldedUnique(keyOf: string -> Option<string>, fields: seq<Field>, a: map<string, string>,
                     b: map<string, string>)
    requires Folded(keyOf, fields, a) && Folded(keyOf, fields, b)
    ensures a == b
  {
    forall key: string ensures key in a <==> key in b {
      assert ValuesOf(keyOf, fields, key) == [] || ValuesOf(keyOf, fields, key) != [];
    }
  }

  function RequestOf(version: string, fields: seq<Field>, body: Bytes): HTTPRequest {
    HTTPRequest(LastValue(fields, ":method"), LastValue(fields, ":path"), version,
                FoldHeaders(RequestKey, fields), body)
  }

  function ResponseOf(version: string, fields: seq<Field>, body: Bytes): HTTPResponse {
    HTTPResponse(version, LastValue(fields, ":status"), LastCode(fields), FoldHeaders(ResponseKey, fields), body)
  }

  // ---------- what a message says about its fields ----------

  predicate IsLastField(fields: seq<Field>, name: string, k: int) {
    0 <= k < |fields| && fields[k].name == name && forall j :: k < j < |fields| ==> fields[j].name != name
  }

  /** `value` is that of the last field of that name, and empty if there is none. */
  ghost predicate SaysLast(fields: seq<Field>, name: string, value: string) {
    && (forall k :: IsLastField(fields, name, k) ==> value == fields[k].value)
    && ((forall k :: 0 <= k < |fields| ==> fields[k].name != name) ==> value == "")
  }

  predicate GivesCode(f: Field) { f.name == ":status" && ScanInt(f.value, 10).Some? }

  /** Field `k` is the last one that gives a status code. */
  predicate IsLastCode(fields: seq<Field>, k: int) {
    0 <= k < |fields| && GivesCode(fields[k]) && forall j :: k < j < |fields| ==> !GivesCode(fields[j])
  }

  /** `code` is what the last `:status` that starts with a number says, and 0 if there is none. */
  ghost predicate SaysCode(fields: seq<Field>, code: int) {
    && (forall k :: IsLastCode(fields, k) ==> Some(code) == ScanInt(fields[k].value, 10))
    && ((forall k :: 0 <= k < |fields| ==> !GivesCode(fields[k])) ==> code == 0)
  }

  /** The values of the fields with one of these names, in field order. */
  function ValuesAmong(fields: seq<Field>, names: set<string>): seq<string> {
    if fields == [] then []
    else
      var last := fields[|fields| - 1];
      ValuesAmong(fields[..|fields| - 1], names) + if last.name in names then [last.value] else []
  }

  predicate IsPseudo(name: string) { |name| > 0 && name[0] == ':' }

  /** The fields a header is made of: `host` also of `:authority` fields, of which only requests have any. */
  function SourcesOf(name: string, request: bool): set<string> {
    if name == "host" && request then {"host", ":authority"} else {name}
  }

  /** There is no header for a pseudo-field. Any other header is there if its fields are, and holds their values in
      order, separated by "; " for cookies (section 8.2.3 of RFC 9113) and ", " otherwise (section 5.3 of RFC 9110). */
  ghost predicate SaysHeaders(fields: seq<Field>, request: bool, headers: map<string, string>) {
    && (forall name: string :: IsPseudo(name) ==> name !in headers)
    && forall name: string :: !IsPseudo(name) ==>
         var values := ValuesAmong(fields, SourcesOf(name, request));
         && (values == [] <==> name !in headers)
         && (values != [] ==> headers[name] == Join(values, if name == "cookie" then "; " else ", "))
  }

  ghost predicate DescribesRequest(req: HTTPRequest, version: string, fields: seq<Field>, body: Bytes) {
    && SaysLast(fields, ":method", req.method_) && SaysLast(fields, ":path", req.path)
    && req.version == version && SaysHeaders(fields, true, req.headers) && req.body == body
  }

  ghost predicate DescribesResponse(resp: HTTPResponse, version: string, fields: seq<Field>, body: Bytes) {
    && SaysLast(fields, ":status", resp.status) && SaysCode(fields, resp.code)
    && resp.version == version && SaysHeaders(fields, false, resp.headers) && resp.body == body
  }

  lemma JoinOne(value: string, separator: string)
    ensures Join([value], separator) == value
  {
  }

  lemma Regroup(a: string, s: string, b: string, c: string)
    ensures ((a + s + b) + s) + c == a + s + (b + s + c)
  {
  }

  /** Joining puts the separator between the values, first to last. */
  lemma {:induction false} JoinCons(value: string, values: seq<string>, separator: string)
    requires values != []
    ensures Join([value], separator) == value
    ensures Join([value] + values, separator) == value + separator + Join(values, separator)
  {
    hide Join;
    var init, last := values[..|values| - 1], values[|values| - 1];
    assert values == init + [last] && [value] + values == ([value] + init) + [last];
    JoinOne(value, separator);
    JoinOne(last, separator);
    JoinSnoc([value] + init, last, separator);
    if init == [] {
      assert [value] + init == [value] && values == [last];
    } else {
      JoinCons(value, init, separator);
      JoinSnoc(init, last, separator);
      Regroup(value, separator, Join(init, separator), last);
    }
  }

  lemma SaysLastSnoc(init: seq<Field>, f: Field, name: string, value: string)
    requires SaysLast(init, name, value)
    ensures SaysLast(init + [f], name, if f.name == name then f.value else value)
  {
    var fields := init + [f];
    if f.name == name {
      assert fields[|init|] == f;
    } else {
      forall k | IsLastField(fields, name, k) ensures IsLastField(init, name, k) && fields[k] == init[k] {
        forall j | k < j < |init| ensures init[j].name != name { assert fields[j] == init[j]; }
      }
      if forall k :: 0 <= k < |fields| ==> fields[k].name != name {
        forall k | 0 <= k < |init| ensures init[k].name != name { assert fields[k] == init[k]; }
      }
    }
  }

  lemma {:induction false} LastValueSaid(fields: seq<Field>, name: string)
    ensures SaysLast(fields, name, LastValue(fields, name))
  {
    if fields != [] {
      hide SaysLast;
      var init, last := fields[..|fields| - 1], fields[|fields| - 1];
      LastValueSaid(init, name);
      assert fields == init + [last];
      SaysLastSnoc(init, last, name, LastValue(init, name));
    }
  }

  lemma SaysCodeSnoc(init: seq<Field>, f: Field, code: int)
    requires SaysCode(init, code)
    ensures SaysCode(init + [f], if GivesCode(f) then ScanInt(f.value, 10).value else code)
  {
    hide ScanInt;
    var fields := init + [f];
    if GivesCode(f) {
      assert fields[|init|] == f;
    } else {
      forall k | IsLastCode(fields, k) ensures IsLastCode(init, k) && fields[k] == init[k] {
        forall j | k < j < |init| ensures !GivesCode(init[j]) { assert fields[j] == init[j]; }
      }
      if forall k :: 0 <= k < |fields| ==> !GivesCode(fields[k]) {
        forall k | 0 <= k < |init| ensures !GivesCode(init[k]) { assert fields[k] == init[k]; }
      }
    }
  }

  lemma NoCode()
    ensures SaysCode([], 0)
  {
  }

  lemma {:induction false} LastCodeSaid(fields: seq<Field>)
    ensures SaysCode(fields, LastCode(fields))
  {
    if fields == [] {
      NoCode();
    } else {
      hide ScanInt, SaysCode;
      var init, last := fields[..|fields| - 1], fields[|fields| - 1];
      LastCodeSaid(init);
      assert fields == init + [last];
      SaysCodeSnoc(init, last, LastCode(init));
    }
  }

  lemma KeysAre(name: string, key: string)
    ensures RequestKey(name) == Some(key) <==> !IsPseudo(key) && name in SourcesOf(key, true)
    ensures ResponseKey(name) == Some(key) <==> !IsPseudo(key) && name in SourcesOf(key, false)
  {
  }

  lemma {:induction false} ValuesAre(fields: seq<Field>, key: string)
    ensures IsPseudo(key) ==> ValuesOf(RequestKey, fields, key) == [] && ValuesOf(ResponseKey, fields, key) == []
    ensures !IsPseudo(key) ==> ValuesOf(RequestKey, fields, key) == ValuesAmong(fields, SourcesOf(key, true))
    ensures !IsPseudo(key) ==> ValuesOf(ResponseKey, fields, key) == ValuesAmong(fields, SourcesOf(key, false))
  {
    hide RequestKey, ResponseKey, SourcesOf, IsPseudo;
    if fields != [] {
      ValuesAre(fields[..|fields| - 1], key);
      KeysAre(fields[|fields| - 1].name, key);
    }
  }

  lemma FoldedSays(fields: seq<Field>, headers: map<string, string>)
    ensures Folded(RequestKey, fields, headers) ==> SaysHeaders(fields, true, headers)
    ensures Folded(ResponseKey, fields, headers) ==> SaysHeaders(fields, false, headers)
  {
    hide ValuesOf, ValuesAmong, RequestKey, ResponseKey, SourcesOf, Join, IsPseudo;
    forall name: string
      ensures IsPseudo(name) && (Folded(RequestKey, fields, headers) || Folded(ResponseKey, fields, headers)) ==>
                name !in headers
    {
      ValuesAre(fields, name);
    }
    forall name: string { ValuesAre(fields, name); }
  }

  /** What the fields say of the messages built from them, wherever they are built. */
  lemma MessagesDescribed(version: string, fields: seq<Field>, body: Bytes)
    ensures DescribesRequest(RequestOf(version, fields, body), version, fields, body)
    ensures DescribesResponse(ResponseOf(version, fields, body), version, fields, body)
  {
    hide SaysLast, SaysCode, SaysHeaders, Folded, FoldHeaders, LastValue, LastCode;
    LastValueSaid(fields, ":method");
    LastValueSaid(fields, ":path");
    LastValueSaid(fields, ":status");
    LastCodeSaid(fields);
    FoldHeadersIsFolded(RequestKey, fields);
    FoldHeadersIsFolded(ResponseKey, fields);
    FoldedSays(fields, FoldHeaders(RequestKey, fields));
    FoldedSays(fields, FoldHeaders(ResponseKey, fields));
  }

  // ---------- the builders ----------

  method BuildH2Request(fields: seq<Field>, body: Bytes) returns (req: HTTPRequest)
    ensures req == RequestOf("HTTP/2", fields, body)
    ensures DescribesRequest(req, "HTTP/2", fields, body)
    ensures Folded(RequestKey, fields, req.headers)
  {
    hide DescribesRequest, DescribesResponse, Folded;
    var verb, path, headers := "", "", map[];
    for i := 0 to |fields|
      invariant verb == LastValue(fields[..i], ":method") && path == LastValue(fields[..i], ":path")
      invariant headers == FoldHeaders(RequestKey, fields[..i])
    {
      var f := fields[i];
      assert fields[..i + 1][..i] == fields[..i];
      if f.name == ":method" {
        verb := f.value;
      } else if f.name == ":path" {
        path := f.value;
      } else if f.name == ":authority" {
        headers := AddHeader(headers, "host", f.value);
      } else if f.name == ":scheme" {
      } else if !(":" <= f.name) {
        headers := AddHeader(headers, f.name, f.value);
      }
    }
    assert fields[..|fields|] == fields;
    FoldHeadersIsFolded(RequestKey, fields);
    MessagesDescribed("HTTP/2", fields, body);
    req := HTTPRequest(verb, path, "HTTP/2", headers, body);
  }

  method BuildH2Response(fields: seq<Field>, body: Bytes) returns (resp: HTTPResponse)
    ensures resp == ResponseOf("HTTP/2", fields, body)
    ensures DescribesResponse(resp, "HTTP/2", fields, body)
    ensures Folded(ResponseKey, fields, resp.headers)
  {
    hide DescribesRequest, DescribesResponse, Folded;
    var status, code, headers := "", 0, map[];
    for i := 0 to |fields|
      invariant status == LastValue(fields[..i], ":status") && code == LastCode(fields[..i])
      invariant headers == FoldHeaders(ResponseKey, fields[..i])
    {
      var f := fields[i];
      assert fields[..i + 1][..i] == fields[..i];
      if f.name == ":status" {
        status := f.value;
        var scanned := ScanInt(f.value, 10);
        if scanned.Some? {
          code := scanned.value;
        }
      } else if !(":" <= f.name) {
        headers := AddHeader(headers, f.name, f.value);
      }
    }
    assert fields[..|fields|] == fields;
    FoldHeadersIsFolded(ResponseKey, fields);
    MessagesDescribed("HTTP/2", fields, body);
    resp := HTTPResponse("HTTP/2", status, code, headers, body);
  }

  /** The HTTP/3 builder tests names by their first byte; it has no body. */
  method BuildH3Request(fields: seq<Field>) returns (req: HTTPRequest)
    ensures req == RequestOf("HTTP/3", fields, [])
    ensures DescribesRequest(req, "HTTP/3", fields, [])
    ensures Folded(RequestKey, fields, req.headers)
  {
    hide DescribesRequest, DescribesResponse, Folded;
    var verb, path, headers := "", "", map[];
    for i := 0 to |fields|
      invariant verb == LastValue(fields[..i], ":method") && path == LastValue(fields[..i], ":path")
      invariant headers == FoldHeaders(RequestKey, fields[..i])
    {
      var f := fields[i];
      assert fields[..i + 1][..i] == fields[..i];
      if f.name == ":method" {
        verb := f.value;
      } else if f.name == ":path" {
        path := f.value;
      } else if f.name == ":authority" {
        headers := AddHeader(headers, "host", f.value);
      } else if f.name == ":scheme" {
      } else if |f.name| == 0 || f.name[0] != ':' {
        headers := AddHeader(headers, f.name, f.value);
      }
    }
    assert fields[..|fields|] == fields;
    FoldHeadersIsFolded(RequestKey, fields);
    MessagesDescribed("HTTP/3", fields, []);
    req := HTTPRequest(verb, path, "HTTP/3", headers, []);
  }

  method BuildH3Response(fields: seq<Field>) returns (resp: HTTPResponse)
    ensures resp == ResponseOf("HTTP/3", fields, [])
    ensures DescribesResponse(resp, "HTTP/3", fields, [])
    ensures Folded(ResponseKey, fields, resp.headers)
  {
    hide DescribesRequest, DescribesResponse, Folded;
    var status, code, headers := "", 0, map[];
    for i := 0 to |fields|
      invariant status == LastValue(fields[..i], ":status") && code == LastCode(fields[..i])
      invariant headers == FoldHeaders(ResponseKey, fields[..i])
    {
      var f := fields[i];
      assert fields[..i + 1][..i] == fields[..i];
      if f.name == ":status" {
        status := f.value;
        var scanned := ScanInt(f.value, 10);
        if scanned.Some? {
          code := scanned.value;
        }
      } else if |f.name| == 0 || f.name[0] != ':' {
        headers := AddHeader(headers, f.name, f.value);
      }
    }
    assert fields[..|fields|] == fields;
    FoldHeadersIsFolded(ResponseKey, fields);
    MessagesDescribed("HTTP/3", fields, []);
    resp := HTTPResponse("HTTP/3", status, code, headers, []);
  }
}
