/** `ApiClient`: assembles a RestSharp request from the call's parameters and hands it to
    the transport; also default headers, file parameters and API-key lookup. */
module Client {
  import opened Wrappers
  import opened Primitives
  import opened Errors
  import opened Paths
  import Config

  /** RestSharp's `Method`. */
  datatype Method = GET | POST | PUT | DELETE | HEAD | OPTIONS | PATCH | MERGE | COPY

  /** The RestSharp `ParameterType`s this client produces. */
  datatype ParameterType = HttpHeader | GetOrPost | RequestBody

  /** A RestSharp request parameter. */
  datatype Parameter = Parameter(name: string, value: string, kind: ParameterType)

  /** A file upload: form field name, content, file name and content type. */
  datatype FileParameter = FileParameter(name: string, contents: seq<byte>, fileName: string, contentType: Option<string>)

  /** One entry of a `Dictionary`, which enumerates its entries in insertion order. */
  datatype Entry<V> = Entry(key: string, value: V)

  predicate DistinctKeys<V>(entries: seq<Entry<V>>) {
    forall i, j :: 0 <= i < j < |entries| ==> entries[i].key != entries[j].key
  }

  /** `Dictionary.TryGetValue`: the value of the first entry with the key, if any. */
  function Lookup<V>(entries: seq<Entry<V>>, key: string): (r: Option<V>)
    ensures r.Some? <==> exists i :: 0 <= i < |entries| && entries[i].key == key
    ensures r.Some? ==> exists i :: 0 <= i < |entries| && entries[i] == Entry(key, r.value)
                                  && forall j :: 0 <= j < i ==> entries[j].key != key
  {
    if |entries| == 0 then None
    else if entries[0].key == key then
      assert entries[0] == Entry(key, entries[0].value);
      Some(entries[0].value)
    else
      var r := Lookup(entries[1..], key);
      assert forall i :: 1 <= i < |entries| ==> entries[i] == entries[1..][i - 1];
      assert r.Some? ==> exists i :: 0 <= i < |entries| && entries[i] == Entry(key, r.value)
                                  && forall j :: 0 <= j < i ==> entries[j].key != key by {
        if r.Some? {
          var i :| 0 <= i < |entries[1..]| && entries[1..][i] == Entry(key, r.value)
                   && forall j :: 0 <= j < i ==> entries[1..][j].key != key;
          assert entries[i + 1] == Entry(key, r.value);
          forall j | 0 <= j < i + 1 ensures entries[j].key != key {
            if j > 0 { assert entries[j] == entries[1..][j - 1]; }
          }
        }
      }
      r
  }

  /** With distinct keys, the lookup of an entry's key gives that entry's value. */
  lemma LookupDistinct<V>(entries: seq<Entry<V>>, k: int)
    requires DistinctKeys(entries) && 0 <= k < |entries|
    ensures Lookup(entries, entries[k].key) == Some(entries[k].value)
  {
  }

  /** The request handed to the transport: resource path, method, parameters in the order
      they were added, and files. */
  datatype Request = Request(resource: string, httpMethod: Method, parameters: seq<Parameter>, files: seq<FileParameter>)

  /** What the transport returns; status 0 means no HTTP response was received. */
  datatype Response = Response(statusCode: int32, content: string, errorMessage: Option<string>, headers: seq<Parameter>)

  /** `RestClient.Execute` on a client bound to a base URL. */
  type Transport = (string, Request) -> Response

  /** An `ApiClient`: its base path (fixed at construction) and its default headers. */
  datatype ApiClient = ApiClient(basePath: string, defaultHeader: seq<Entry<string>>)

  const DefaultBasePath: string := "https://localhost"

  /** `new ApiClient()` (`None`: the argument is omitted) and `new ApiClient(basePath)`. */
  function NewApiClient(basePath: Option<string>): (c: ApiClient)
    ensures c.basePath == basePath.GetOr("https://localhost")
    ensures c.defaultHeader == []
  {
    ApiClient(basePath.GetOr(DefaultBasePath), [])
  }

  /** The arguments of one `CallApi` invocation. */
  datatype CallArgs = CallArgs(
    path: string,
    httpMethod: Method,
    queryParams: seq<Entry<string>>,
    postBody: Option<string>,
    headerParams: seq<Entry<string>>,
    formParams: seq<Entry<string>>,
    fileParams: seq<Entry<FileParameter>>)

  /** One parameter of `kind` per entry, in enumeration order. */
  function AsParameters(entries: seq<Entry<string>>, kind: ParameterType): (ps: seq<Parameter>)
    ensures |ps| == |entries|
    ensures forall i :: 0 <= i < |entries| ==> ps[i] == Parameter(entries[i].key, entries[i].value, kind)
  {
    seq(|entries|, i requires 0 <= i < |entries| => Parameter(entries[i].key, entries[i].value, kind))
  }

  /** The parameters of a non-empty dictionary: its first entry's, then the rest's. */
  lemma AsParametersCons(entries: seq<Entry<string>>, kind: ParameterType)
    requires |entries| > 0
    ensures AsParameters(entries, kind)
         == [Parameter(entries[0].key, entries[0].value, kind)] + AsParameters(entries[1..], kind)
  {
    var whole, rest := AsParameters(entries, kind), AsParameters(entries[1..], kind);
    var p := Parameter(entries[0].key, entries[0].value, kind);
    forall i | 0 <= i < |whole| ensures whole[i] == ([p] + rest)[i] {
      if i > 0 {
        assert entries[1..][i - 1] == entries[i];
      }
    }
  }

  /** A `foreach` over a dictionary adding one parameter per entry to the request: the
      result is the earlier parameters followed by the entries' parameters in order. */
  function AddParameters(ps: seq<Parameter>, entries: seq<Entry<string>>, kind: ParameterType): (r: seq<Parameter>)
    ensures r == ps + AsParameters(entries, kind)
    decreases |entries|
  {
    if |entries| == 0 then ps
    else
      var p := Parameter(entries[0].key, entries[0].value, kind);
      AsParametersCons(entries, kind);
      assert ps + [p] + AsParameters(entries[1..], kind) == ps + ([p] + AsParameters(entries[1..], kind));
      AddParameters(ps + [p], entries[1..], kind)
  }

  /** The file parameters' values, in enumeration order. */
  function FileValues(entries: seq<Entry<FileParameter>>): (r: seq<FileParameter>)
    ensures |r| == |entries|
    ensures forall i :: 0 <= i < |entries| ==> r[i] == entries[i].value
  {
    if |entries| == 0 then [] else [entries[0].value] + FileValues(entries[1..])
  }

  /** The body parameter: present only for a non-null body. */
  function BodyParameters(postBody: Option<string>): seq<Parameter> {
    if postBody.Some? then [Parameter("application/json", postBody.value, RequestBody)] else []
  }

  /** The request `CallApi` builds: default headers, then the call's headers, then query
      parameters, then form parameters (both as GetOrPost), then the body; files go to the
      request's file list in enumeration order. */
  function BuildRequest(defaultHeader: seq<Entry<string>>, args: CallArgs): (req: Request)
    ensures req.resource == args.path && req.httpMethod == args.httpMethod
    ensures req.parameters ==
      AsParameters(defaultHeader, HttpHeader) + AsParameters(args.headerParams, HttpHeader)
      + AsParameters(args.queryParams, GetOrPost) + AsParameters(args.formParams, GetOrPost)
      + BodyParameters(args.postBody)
    ensures |req.files| == |args.fileParams|
    ensures forall i :: 0 <= i < |args.fileParams| ==> req.files[i] == args.fileParams[i].value
  {
    var defaults := AddParameters([], defaultHeader, HttpHeader);
    var headers := AddParameters(defaults, args.headerParams, HttpHeader);
    var query := AddParameters(headers, args.queryParams, GetOrPost);
    var form := AddParameters(query, args.formParams, GetOrPost);
    assert [] + AsParameters(defaultHeader, HttpHeader) == AsParameters(defaultHeader, HttpHeader);
    Request(args.path, args.httpMethod, form + BodyParameters(args.postBody), FileValues(args.fileParams))
  }

  /** One execution: the request handed to the transport and the response it gave. */
  datatype Exchange = Exchange(request: Request, response: Response)

  /** `CallApi`: one request on the call's path and method, holding the client's default
      headers, the call's headers, query and form parameters and the body in that order,
      and the files in theirs, executed exactly once on the client's base path. */
  function CallApi(client: ApiClient, args: CallArgs, transport: Transport): (x: Exchange)
    ensures x.response == transport(client.basePath, x.request)
    ensures x.request.resource == args.path && x.request.httpMethod == args.httpMethod
    ensures x.request.parameters ==
      AsParameters(client.defaultHeader, HttpHeader) + AsParameters(args.headerParams, HttpHeader)
      + AsParameters(args.queryParams, GetOrPost) + AsParameters(args.formParams, GetOrPost)
      + BodyParameters(args.postBody)
    ensures |x.request.files| == |args.fileParams|
    ensures forall i :: 0 <= i < |args.fileParams| ==> x.request.files[i] == args.fileParams[i].value
  {
    var request := BuildRequest(client.defaultHeader, args);
    Exchange(request, transport(client.basePath, request))
  }

  /** The parameters ahead of the body: the headers, query and form parameters. */
  function ParametersBeforeBody(defaultHeader: seq<Entry<string>>, args: CallArgs): seq<Parameter> {
    AsParameters(defaultHeader, HttpHeader) + AsParameters(args.headerParams, HttpHeader)
    + AsParameters(args.queryParams, GetOrPost) + AsParameters(args.formParams, GetOrPost)
  }

  /** Where each parameter of the request comes from: default header `i` sits at
      position `i`, and the call's headers, query and form entries follow in that order,
      each at its own offset. */
  lemma ParameterPositions(defaultHeader: seq<Entry<string>>, args: CallArgs)
    ensures var ps := BuildRequest(defaultHeader, args).parameters;
      && |ps| == |defaultHeader| + |args.headerParams| + |args.queryParams| + |args.formParams|
                 + (if args.postBody.Some? then 1 else 0)
      && (forall i :: 0 <= i < |defaultHeader| ==>
            ps[i] == Parameter(defaultHeader[i].key, defaultHeader[i].value, HttpHeader))
      && (forall i :: 0 <= i < |args.headerParams| ==>
            ps[|defaultHeader| + i] == Parameter(args.headerParams[i].key, args.headerParams[i].value, HttpHeader))
      && (forall i :: 0 <= i < |args.queryParams| ==>
            ps[|defaultHeader| + |args.headerParams| + i]
              == Parameter(args.queryParams[i].key, args.queryParams[i].value, GetOrPost))
      && (forall i :: 0 <= i < |args.formParams| ==>
            ps[|defaultHeader| + |args.headerParams| + |args.queryParams| + i]
              == Parameter(args.formParams[i].key, args.formParams[i].value, GetOrPost))
  {
    var ps := BuildRequest(defaultHeader, args).parameters;
    var a, b := AsParameters(defaultHeader, HttpHeader), AsParameters(args.headerParams, HttpHeader);
    var c, e := AsParameters(args.queryParams, GetOrPost), AsParameters(args.formParams, GetOrPost);
    var ab := a + b;
    var abc := ab + c;
    var abce := abc + e;
    assert ps == abce + BodyParameters(args.postBody);
    forall i | 0 <= i < |defaultHeader|
      ensures ps[i] == Parameter(defaultHeader[i].key, defaultHeader[i].value, HttpHeader)
    {
      assert ps[i] == abce[i] == abc[i] == ab[i] == a[i];
    }
    forall i | 0 <= i < |args.headerParams|
      ensures ps[|defaultHeader| + i] == Parameter(args.headerParams[i].key, args.headerParams[i].value, HttpHeader)
    {
      var k := |a| + i;
      assert ps[k] == abce[k] == abc[k] == ab[k] == b[i];
    }
    forall i | 0 <= i < |args.queryParams|
      ensures ps[|defaultHeader| + |args.headerParams| + i]
        == Parameter(args.queryParams[i].key, args.queryParams[i].value, GetOrPost)
    {
      var k := |ab| + i;
      assert ps[k] == abce[k] == abc[k] == c[i];
    }
    forall i | 0 <= i < |args.formParams|
      ensures ps[|defaultHeader| + |args.headerParams| + |args.queryParams| + i]
        == Parameter(args.formParams[i].key, args.formParams[i].value, GetOrPost)
    {
      var k := |abc| + i;
      assert ps[k] == abce[k] == e[i];
    }
  }

  /** The request carries a body parameter exactly when the call had a non-null body, and
      then only one: the last, named "application/json" and holding the body text. */
  lemma BodyParameterIffPostBody(defaultHeader: seq<Entry<string>>, args: CallArgs)
    ensures var ps := BuildRequest(defaultHeader, args).parameters;
      && ((exists i :: 0 <= i < |ps| && ps[i].kind == RequestBody) <==> args.postBody.Some?)
      && (forall i :: 0 <= i < |ps| && ps[i].kind == RequestBody ==>
            && args.postBody.Some?
            && i == |ps| - 1
            && ps[i] == Parameter("application/json", args.postBody.value, RequestBody))
      && (args.postBody.Some? ==> ps[|ps| - 1] == Parameter("application/json", args.postBody.value, RequestBody))
  {
    var ps := BuildRequest(defaultHeader, args).parameters;
    var pre := ParametersBeforeBody(defaultHeader, args);
    assert ps == pre + BodyParameters(args.postBody);
    assert forall i :: 0 <= i < |pre| ==> pre[i].kind != RequestBody;
    if args.postBody.Some? {
      assert ps[|pre|].kind == RequestBody;
    }
  }

  function Rank(kind: ParameterType): nat {
    match kind
    case HttpHeader => 0
    case GetOrPost => 1
    case RequestBody => 2
  }

  /** Every header parameter precedes every GetOrPost parameter, which precede the body. */
  lemma ParameterKindsInOrder(defaultHeader: seq<Entry<string>>, args: CallArgs)
    ensures var ps := BuildRequest(defaultHeader, args).parameters;
      forall i, j :: 0 <= i < j < |ps| ==> Rank(ps[i].kind) <= Rank(ps[j].kind)
  {
    HeaderKinds(defaultHeader, args);
    FieldKinds(defaultHeader, args);
    BodyParameterIffPostBody(defaultHeader, args);
    ParameterPositions(defaultHeader, args);
  }

  /** The first |defaultHeader| + |headerParams| parameters are headers. */
  lemma HeaderKinds(defaultHeader: seq<Entry<string>>, args: CallArgs)
    ensures var ps := BuildRequest(defaultHeader, args).parameters;
      forall k :: 0 <= k < |defaultHeader| + |args.headerParams| ==> ps[k].kind == HttpHeader
  {
    var ps := BuildRequest(defaultHeader, args).parameters;
    ParameterPositions(defaultHeader, args);
    forall k | 0 <= k < |defaultHeader| + |args.headerParams| ensures ps[k].kind == HttpHeader {
      if k >= |defaultHeader| {
        assert ps[|defaultHeader| + (k - |defaultHeader|)].kind == HttpHeader;
      }
    }
  }

  /** The query and form parameters, which follow the headers, are GetOrPost. */
  lemma FieldKinds(defaultHeader: seq<Entry<string>>, args: CallArgs)
    ensures var ps := BuildRequest(defaultHeader, args).parameters;
      var h := |defaultHeader| + |args.headerParams|;
      forall k :: h <= k < h + |args.queryParams| + |args.formParams| ==> ps[k].kind == GetOrPost
  {
    var ps := BuildRequest(defaultHeader, args).parameters;
    var h := |defaultHeader| + |args.headerParams|;
    ParameterPositions(defaultHeader, args);
    forall k | h <= k < h + |args.queryParams| + |args.formParams| ensures ps[k].kind == GetOrPost {
      if k < h + |args.queryParams| {
        assert ps[|defaultHeader| + |args.headerParams| + (k - h)].kind == GetOrPost;
      } else {
        var m := k - h - |args.queryParams|;
        assert ps[|defaultHeader| + |args.headerParams| + |args.queryParams| + m].kind == GetOrPost;
      }
    }
  }

  /** `AddDefaultHeader` (`Dictionary.Add`): a null key and a key already present both
      throw and leave the client as it was; otherwise exactly the new entry is appended. */
  function AddDefaultHeader(client: ApiClient, key: Option<string>, value: string): (r: Result<ApiClient, Failure>)
    ensures key.None? ==> r == Failure(ArgumentNull("key"))
    ensures key.Some? && Lookup(client.defaultHeader, key.value).Some? ==> r == Failure(DuplicateKey(key.value))
    ensures r.Success? <==> key.Some? && Lookup(client.defaultHeader, key.value).None?
    ensures r.Success? ==>
      && r.value.basePath == client.basePath
      && r.value.defaultHeader == client.defaultHeader + [Entry(key.value, value)]
  {
    if key.None? then Failure(ArgumentNull("key"))
    else if Lookup(client.defaultHeader, key.value).Some? then Failure(DuplicateKey(key.value))
    else Success(client.(defaultHeader := client.defaultHeader + [Entry(key.value, value)]))
  }

  /** After a successful `AddDefaultHeader` the new key maps to the new value, every other
      key maps to what it did before, and keys stay distinct. */
  lemma AddDefaultHeaderLookup(client: ApiClient, key: string, value: string, other: string)
    requires DistinctKeys(client.defaultHeader)
    requires AddDefaultHeader(client, Some(key), value).Success?
    ensures var c := AddDefaultHeader(client, Some(key), value).value;
      && DistinctKeys(c.defaultHeader)
      && Lookup(c.defaultHeader, key) == Some(value)
      && (other != key ==> Lookup(c.defaultHeader, other) == Lookup(client.defaultHeader, other))
  {
    LookupAppend(client.defaultHeader, Entry(key, value), key);
    LookupAppend(client.defaultHeader, Entry(key, value), other);
  }

  lemma {:induction false} LookupAppend<V>(entries: seq<Entry<V>>, e: Entry<V>, key: string)
    ensures Lookup(entries + [e], key) ==
      if Lookup(entries, key).Some? then Lookup(entries, key)
      else if e.key == key then Some(e.value) else None
  {
    if |entries| > 0 {
      assert (entries + [e])[1..] == entries[1..] + [e];
      LookupAppend(entries[1..], e, key);
    }
  }

  /** A stream passed to `ParameterToFile`: a `FileStream` knows the path it was opened
      with; any other stream has no name. `remaining` is what reading it to the end gives. */
  datatype Stream = FileStream(name: string, remaining: seq<byte>) | OtherStream(remaining: seq<byte>)

  const NoFileName: string := "no_file_name_provided"

  /** `ParameterToFile`: the stream's remaining bytes, named after the last component of a
      `FileStream`'s path, or "no_file_name_provided" for any other stream; no content type.
      A null stream makes `ReadAsBytes` throw `NullReferenceException` when it reads. */
  function ParameterToFile(name: string, stream: Option<Stream>, platform: Platform): (r: Result<FileParameter, Failure>)
    ensures r.Failure? <==> stream.None?
    ensures r.Failure? ==> r.error == NullReference
    ensures r.Success? ==> var p, st := r.value, stream.value;
      && p.name == name && p.contents == st.remaining && p.contentType.None?
      && (st.OtherStream? ==> p.fileName == "no_file_name_provided")
      && (st.FileStream? ==>
        && (forall i :: 0 <= i < |p.fileName| ==> !IsSeparator(platform, p.fileName[i]))
        && |p.fileName| <= |st.name|
        && st.name[|st.name| - |p.fileName|..] == p.fileName
        && (|p.fileName| < |st.name| ==> IsSeparator(platform, st.name[|st.name| - |p.fileName| - 1])))
  {
    match stream
    case None => Failure(NullReference)
    case Some(st) =>
      var fileName := if st.FileStream? then GetFileName(platform, st.name) else NoFileName;
      Success(FileParameter(name, st.remaining, fileName, None))
  }

  /** `GetApiKeyWithPrefix`: with a registered prefix, the prefix, a space and the key (a
      missing key reads as null and concatenates as ""); without one, the key itself, or
      null when the scheme has none. A null identifier makes the lookup throw. */
  function GetApiKeyWithPrefix(config: Config.Configuration, apiKeyIdentifier: Option<string>): (r: Result<Option<string>, Failure>)
    ensures apiKeyIdentifier.None? ==> r == Failure(ArgumentNull("key"))
    ensures apiKeyIdentifier.Some? ==> r.Success?
    ensures apiKeyIdentifier.Some? && apiKeyIdentifier.value in config.apiKeyPrefix ==>
      var id := apiKeyIdentifier.value;
      r.value == Some(config.apiKeyPrefix[id] + " " + (if id in config.apiKey then config.apiKey[id] else ""))
    ensures apiKeyIdentifier.Some? && apiKeyIdentifier.value !in config.apiKeyPrefix ==>
      var id := apiKeyIdentifier.value;
      (r.value.Some? <==> id in config.apiKey) && (r.value.Some? ==> r.value.value == config.apiKey[id])
  {
    match apiKeyIdentifier
    case None => Failure(ArgumentNull("key"))
    case Some(id) =>
      var apiKeyValue := if id in config.apiKey then Some(config.apiKey[id]) else None;
      if id in config.apiKeyPrefix then Success(Some(config.apiKeyPrefix[id] + " " + apiKeyValue.GetOr("")))
      else Success(apiKeyValue)
  }

  /** Registering a scheme's key and prefix decides what `GetApiKeyWithPrefix` gives for
      that scheme, whatever was registered before, and leaves every other scheme alone. */
  lemma GetApiKeyWithPrefixRegistered(config: Config.Configuration, id: string, prefix: string, key: string, other: string)
    requires other != id
    ensures var withBoth := config.(apiKeyPrefix := config.apiKeyPrefix[id := prefix], apiKey := config.apiKey[id := key]);
      && GetApiKeyWithPrefix(withBoth, Some(id)) == Success(Some(prefix + " " + key))
      && GetApiKeyWithPrefix(withBoth, Some(other)) == GetApiKeyWithPrefix(config, Some(other))
    ensures var keyOnly := config.(apiKeyPrefix := config.apiKeyPrefix - {id}, apiKey := config.apiKey[id := key]);
      GetApiKeyWithPrefix(keyOnly, Some(id)) == Success(Some(key))
    ensures var prefixOnly := config.(apiKeyPrefix := config.apiKeyPrefix[id := prefix], apiKey := config.apiKey - {id});
      GetApiKeyWithPrefix(prefixOnly, Some(id)) == Success(Some(prefix + " "))
    ensures var neither := config.(apiKeyPrefix := config.apiKeyPrefix - {id}, apiKey := config.apiKey - {id});
      GetApiKeyWithPrefix(neither, Some(id)) == Success(None)
  {
    assert prefix + " " + "" == prefix + " ";
  }
}
