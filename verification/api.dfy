/** `ShoppingCartWebApi`: the four cart operations. Each builds its path and arguments,
    calls `CallApi` once, and turns the response into a cart or an `ApiException`. */
module Api {
  import opened Wrappers
  import opened Primitives
  import opened Errors
  import opened Strings
  import opened DecimalText
  import opened Models
  import opened Client
  import Config
  import opened Extensions

  /** A facade over one `ApiClient`. */
  datatype ShoppingCartWebApi = ShoppingCartWebApi(apiClient: ApiClient)

  /** `new ShoppingCartWebApi(apiClient)`: a null client selects the shared
      `Configuration.ShoppingCartWebApiClient`, passed here as `sharedClient`. */
  function NewShoppingCartWebApi(apiClient: Option<ApiClient>, sharedClient: ApiClient): (api: ShoppingCartWebApi)
    ensures apiClient.Some? ==> api.apiClient == apiClient.value
    ensures apiClient.None? ==> api.apiClient == sharedClient
  {
    ShoppingCartWebApi(apiClient.GetOr(sharedClient))
  }

  /** `new ShoppingCartWebApi(basePath)`: a fresh client on that base path. */
  function NewShoppingCartWebApiAt(basePath: string): (api: ShoppingCartWebApi)
    ensures GetBasePath(api) == basePath
    ensures api.apiClient.defaultHeader == []
  {
    ShoppingCartWebApi(NewApiClient(Some(basePath)))
  }

  /** `GetBasePath`: the base path of the facade's client, the one `CallApi` executes on. */
  function GetBasePath(api: ShoppingCartWebApi): (basePath: string)
    ensures forall args, transport :: CallApi(api.apiClient, args, transport).response
                                      == transport(basePath, CallApi(api.apiClient, args, transport).request)
  {
    api.apiClient.basePath
  }

  /** The shared client as first created: no base path given, so "https://localhost". */
  lemma DefaultFacadeBasePath()
    ensures GetBasePath(NewShoppingCartWebApi(None, NewApiClient(None))) == "https://localhost"
  {
  }

  /** Adding a default header never moves the client to another base path. */
  lemma BasePathFixed(api: ShoppingCartWebApi, key: Option<string>, value: string)
    ensures var r := AddDefaultHeader(api.apiClient, key, value);
      r.Success? ==> GetBasePath(ShoppingCartWebApi(r.value)) == GetBasePath(api)
  {
  }

  /** What the operations depend on besides the client: the configuration, `DateTime`
      formatting, the transport and the JSON codec for the two models. */
  datatype Runtime = Runtime(
    config: Config.Configuration,
    formatDate: Extensions.DateFormatter,
    transport: Transport,
    encodeItem: Item -> Extensions.Encoded,
    decodeCart: string -> Extensions.Decoded<ShoppingCart>)

  /** The `CallApi` arguments, if the operation got as far as calling it, and what the
      operation returned (a cart, possibly null) or threw. */
  datatype Outcome = Outcome(call: Option<CallArgs>, result: Result<Option<ShoppingCart>, Failure>)

  /** Every operation passes empty query, header, form and file dictionaries. */
  predicate NoExtraParams(args: CallArgs) {
    args.queryParams == [] && args.headerParams == [] && args.formParams == [] && args.fileParams == []
  }

  /** The response check shared by all operations: status 400 and above is an error
      carrying the body, status 0 is a transport error carrying its message, and every
      other status, 1xx to 3xx included, is decoded as a cart. */
  function HandleResponse(operation: string, response: Response, decodeCart: string -> Extensions.Decoded<ShoppingCart>): (r: Result<Option<ShoppingCart>, Failure>)
    ensures response.statusCode >= 400 ==>
      r == Failure(ApiError(ApiException(response.statusCode, "Error calling " + operation + ": " + response.content, Some(response.content))))
    ensures response.statusCode == 0 ==>
      r == Failure(ApiError(ApiException(0, "Error calling " + operation + ": " + response.errorMessage.GetOr(""), response.errorMessage)))
    ensures response.statusCode != 0 && response.statusCode < 400 ==>
      match decodeCart(response.content)
      case Decoded(cart) => r == Success(cart)
      case IoError(m) => r == Failure(ApiError(ApiException(500, m, None)))
      case JsonError(m) => r == Failure(CodecError(m))
  {
    if response.statusCode >= 400 then
      Failure(ApiError(ApiException(response.statusCode, "Error calling " + operation + ": " + response.content, Some(response.content))))
    else if response.statusCode == 0 then
      Failure(ApiError(ApiException(response.statusCode, "Error calling " + operation + ": " + response.errorMessage.GetOr(""), response.errorMessage)))
    else
      match Extensions.Deserialize(response.content, Extensions.ModelShape, decodeCart)
      case Failure(e) => Failure(e)
      case Success(ModelValue(cart)) => Success(cart)
      case Success(RawText(_)) => assert false; Success(None)
  }

  /** An operation returns a cart exactly when the status is neither 0 nor 400 and above
      and the body decodes; an `ApiException` with the HTTP status means the server said no. */
  lemma HandleResponseSucceedsIff(operation: string, response: Response, decodeCart: string -> Extensions.Decoded<ShoppingCart>)
    ensures var r := HandleResponse(operation, response, decodeCart);
      && (r.Success? <==> response.statusCode != 0 && response.statusCode < 400 && decodeCart(response.content).Decoded?)
      && (r.Failure? && r.error.ApiError? && r.error.exception.errorCode == response.statusCode ==>
            response.statusCode >= 400 || response.statusCode == 0 || response.statusCode == 500)
  {
  }

  const ClearCartOperation: string := "ShoppingcartDelete"
  const RemoveItemOperation: string := "ShoppingcartItemidDelete"
  const UpdateCountOperation: string := "ShoppingcartItemidItemcountPut"
  const AddItemOperation: string := "ShoppingcartItemidPost"

  const ItemsPrefix: string := "/shoppingcart/"

  /** Path placeholder substitution: "{format}" first, then each named parameter. */
  function ExpandFormat(template: string): string {
    Replace(template, FormatSlot, "json")
  }

  /** The decimal text of an id as `ParameterToString` renders it. */
  function IdText(n: int, rt: Runtime): (s: string)
    ensures s == IntToString(n)
  {
    Extensions.ParameterToString(Extensions.Integer(n), rt.config, rt.formatDate)
  }

  /** `DeleteRequestDeleteAllItemsFromShoppingCart`: DELETE "/shoppingcart", no body. */
  function DeleteRequestDeleteAllItemsFromShoppingCart(api: ShoppingCartWebApi, rt: Runtime): (o: Outcome)
    ensures o.call.Some?
    ensures o.call.value.path == "/shoppingcart"
    ensures o.call.value.httpMethod == DELETE && o.call.value.postBody.None? && NoExtraParams(o.call.value)
    ensures o.result == HandleResponse("ShoppingcartDelete", CallApi(api.apiClient, o.call.value, rt.transport).response, rt.decodeCart)
  {
    var path := ExpandFormat("/shoppingcart");
    ReplaceAbsent("/shoppingcart", FormatSlot, "json");
    var args := CallArgs(path, DELETE, [], None, [], [], []);
    Outcome(Some(args), HandleResponse(ClearCartOperation, CallApi(api.apiClient, args, rt.transport).response, rt.decodeCart))
  }

  const FormatSlot: string := "{format}"
  const ItemIdSlot: string := "{itemid}"
  const ItemCountSlot: string := "{itemcount}"
  const ItemTemplate: string := ItemsPrefix + ItemIdSlot
  const ItemCountTemplate: string := ItemsPrefix + ItemIdSlot + "/" + ItemCountSlot

  lemma ItemTemplateHasNoFormat()
    ensures Replace(ItemTemplate, FormatSlot, "json") == ItemTemplate
  {
    ReplaceSkipsPrefix(ItemsPrefix, ItemIdSlot, FormatSlot, "json");
    ReplaceMismatchWhole(ItemIdSlot, FormatSlot, "json", 1);
  }

  lemma ItemTemplateItemId(id: string)
    ensures Replace(ItemTemplate, ItemIdSlot, id) == ItemsPrefix + id
  {
    ReplaceSkipsPrefix(ItemsPrefix, ItemIdSlot, ItemIdSlot, id);
    ReplaceAtFront("", ItemIdSlot, id);
    assert ItemIdSlot + "" == ItemIdSlot && id + "" == id;
  }

  /** The path of an operation on one item: "/shoppingcart/" and the item id in decimal. */
  function ItemPath(itemId: int64, rt: Runtime): (path: string)
    ensures path == ItemsPrefix + IntToString(itemId)
  {
    ItemTemplateHasNoFormat();
    ItemTemplateItemId(IdText(itemId, rt));
    Replace(Replace(ItemTemplate, FormatSlot, "json"), ItemIdSlot, IdText(itemId, rt))
  }

  /** `DeleteRequestDeleteItemByItemId`: DELETE "/shoppingcart/<itemId>", no body. */
  function DeleteRequestDeleteItemByItemId(api: ShoppingCartWebApi, itemId: int64, rt: Runtime): (o: Outcome)
    ensures o.call.Some?
    ensures o.call.value.path == "/shoppingcart/" + IntToString(itemId)
    ensures o.call.value.httpMethod == DELETE && o.call.value.postBody.None? && NoExtraParams(o.call.value)
    ensures o.result == HandleResponse("ShoppingcartItemidDelete", CallApi(api.apiClient, o.call.value, rt.transport).response, rt.decodeCart)
  {
    var args := CallArgs(ItemPath(itemId, rt), DELETE, [], None, [], [], []);
    Outcome(Some(args), HandleResponse(RemoveItemOperation, CallApi(api.apiClient, args, rt.transport).response, rt.decodeCart))
  }

  lemma ItemCountTemplateHasNoFormat()
    ensures Replace(ItemCountTemplate, FormatSlot, "json") == ItemCountTemplate
  {
    var tail := "/" + ItemCountSlot;
    var slots := ItemIdSlot + tail;
    assert ItemCountTemplate == ItemsPrefix + slots;
    ReplaceMismatchWhole(ItemCountSlot, FormatSlot, "json", 1);
    ReplaceSkipsPrefix("/", ItemCountSlot, FormatSlot, "json");
    ReplaceSkipsMismatch(ItemIdSlot, tail, FormatSlot, "json", 1);
    ReplaceSkipsPrefix(ItemsPrefix, slots, FormatSlot, "json");
  }

  lemma ItemCountTemplateItemId(id: string)
    ensures Replace(ItemCountTemplate, ItemIdSlot, id) == ItemsPrefix + id + "/" + ItemCountSlot
  {
    ReplaceMismatchWhole(ItemCountSlot, ItemIdSlot, id, 5);
    ReplaceSlot(ItemsPrefix, ItemIdSlot, "/", ItemCountSlot, id);
  }

  lemma ItemCountTemplateItemCount(prefix: string, count: string)
    requires '{' !in prefix
    ensures Replace(prefix + ItemCountSlot, ItemCountSlot, count) == prefix + count
  {
    ReplaceSkipsPrefix(prefix, ItemCountSlot, ItemCountSlot, count);
    ReplaceAtFront("", ItemCountSlot, count);
    assert ItemCountSlot + "" == ItemCountSlot && count + "" == count;
  }

  /** The path of the update operation: "/shoppingcart/<itemId>/<itemCount>". */
  function ItemCountPath(itemId: int64, itemCount: int32, rt: Runtime): (path: string)
    ensures path == ItemsPrefix + IntToString(itemId) + "/" + IntToString(itemCount)
  {
    var id, count := IdText(itemId, rt), IdText(itemCount, rt);
    ItemCountTemplateHasNoFormat();
    ItemCountTemplateItemId(id);
    IntToStringOnly(itemId, '{');
    assert '{' !in ItemsPrefix + id + "/";
    ItemCountTemplateItemCount(ItemsPrefix + id + "/", count);
    var withId := Replace(Replace(ItemCountTemplate, FormatSlot, "json"), ItemIdSlot, id);
    Replace(withId, ItemCountSlot, count)
  }

  /** `PutRequestUpdateItemCountForAnItemId`: PUT "/shoppingcart/<itemId>/<itemCount>",
      no body. */
  function PutRequestUpdateItemCountForAnItemId(api: ShoppingCartWebApi, itemId: int64, itemCount: int32, rt: Runtime): (o: Outcome)
    ensures o.call.Some?
    ensures o.call.value.path == "/shoppingcart/" + IntToString(itemId) + "/" + IntToString(itemCount)
    ensures o.call.value.httpMethod == PUT && o.call.value.postBody.None? && NoExtraParams(o.call.value)
    ensures o.result == HandleResponse("ShoppingcartItemidItemcountPut", CallApi(api.apiClient, o.call.value, rt.transport).response, rt.decodeCart)
  {
    var args := CallArgs(ItemCountPath(itemId, itemCount, rt), PUT, [], None, [], [], []);
    Outcome(Some(args), HandleResponse(UpdateCountOperation, CallApi(api.apiClient, args, rt.transport).response, rt.decodeCart))
  }

  const MissingBodyMessage: string := "Missing required parameter 'body' when calling ShoppingcartItemidPost"

  /** `PostRequestAddItemToShoppingCart`: a null item throws `ApiException(400, …)` before
      anything else; an item the codec cannot serialise throws `ApiException(500, …)`;
      otherwise POST "/shoppingcart/<itemId>" with the item's JSON as the body. In the
      two failing cases `CallApi` is never reached. */
  function PostRequestAddItemToShoppingCart(api: ShoppingCartWebApi, itemId: int64, body: Option<Item>, rt: Runtime): (o: Outcome)
    ensures body.None? ==>
      o == Outcome(None, Failure(ApiError(ApiException(400, "Missing required parameter 'body' when calling ShoppingcartItemidPost", None))))
    ensures body.Some? && rt.encodeItem(body.value).EncodeError? ==>
      o == Outcome(None, Failure(ApiError(ApiException(500, rt.encodeItem(body.value).message, None))))
    ensures body.Some? && rt.encodeItem(body.value).Encoded? ==>
      && o.call.Some?
      && o.call.value.path == "/shoppingcart/" + IntToString(itemId)
      && o.call.value.httpMethod == POST
      && o.call.value.postBody == Some(rt.encodeItem(body.value).json)
      && NoExtraParams(o.call.value)
      && o.result == HandleResponse("ShoppingcartItemidPost", CallApi(api.apiClient, o.call.value, rt.transport).response, rt.decodeCart)
  {
    if body.None? then Outcome(None, Failure(ApiError(ApiExceptionOf(400, MissingBodyMessage))))
    else
      var path := ItemPath(itemId, rt);
      match Extensions.Serialize(body, rt.encodeItem)
      case Failure(e) => Outcome(None, Failure(e))
      case Success(postBody) =>
        var args := CallArgs(path, POST, [], postBody, [], [], []);
        Outcome(Some(args), HandleResponse(AddItemOperation, CallApi(api.apiClient, args, rt.transport).response, rt.decodeCart))
  }

  /** The remove path names its item: the id can be read back from the path. */
  lemma RemoveItemPathNamesItem(api: ShoppingCartWebApi, itemId: int64, rt: Runtime)
    ensures var path := DeleteRequestDeleteItemByItemId(api, itemId, rt).call.value.path;
      path[..14] == "/shoppingcart/" && ParseInt(path[14..]) == Some(itemId as int)
  {
    var path := DeleteRequestDeleteItemByItemId(api, itemId, rt).call.value.path;
    assert path[14..] == IntToString(itemId);
    IntRoundTrip(itemId);
  }

  /** The update path has every placeholder substituted, and different (id, count) pairs
      give different paths. */
  lemma UpdatePathIsResolved(api: ShoppingCartWebApi, itemId: int64, itemCount: int32, rt: Runtime)
    ensures var path := PutRequestUpdateItemCountForAnItemId(api, itemId, itemCount, rt).call.value.path;
      '{' !in path && '}' !in path
  {
    var id, count := IntToString(itemId), IntToString(itemCount);
    IntToStringOnly(itemId, '{');
    IntToStringOnly(itemId, '}');
    IntToStringOnly(itemCount, '{');
    IntToStringOnly(itemCount, '}');
    assert '{' !in ItemsPrefix && '}' !in ItemsPrefix;
  }

  lemma UpdatePathInjective(api: ShoppingCartWebApi, a: int64, b: int32, c: int64, d: int32, rt: Runtime)
    requires PutRequestUpdateItemCountForAnItemId(api, a, b, rt).call.value.path
          == PutRequestUpdateItemCountForAnItemId(api, c, d, rt).call.value.path
    ensures a == c && b == d
  {
    ItemCountPathsDistinct(a, b, c, d);
  }

  lemma ItemCountPathsDistinct(a: int, b: int, c: int, d: int)
    requires ItemsPrefix + IntToString(a) + "/" + IntToString(b)
          == ItemsPrefix + IntToString(c) + "/" + IntToString(d)
    ensures a == c && b == d
  {
    var sa, sb, sc, sd := IntToString(a), IntToString(b), IntToString(c), IntToString(d);
    assert ItemsPrefix + sa + "/" + sb == ItemsPrefix + (sa + "/" + sb);
    assert ItemsPrefix + sc + "/" + sd == ItemsPrefix + (sc + "/" + sd);
    PrefixCancel(ItemsPrefix, sa + "/" + sb, sc + "/" + sd);
    IntToStringOnly(a, '/');
    IntToStringOnly(c, '/');
    SeparatedPartsUnique(sa, sb, sc, sd, '/');
    IntToStringInjective(a, c);
    IntToStringInjective(b, d);
  }

  /** A null item never reaches the transport, whatever the runtime. */
  lemma AddWithoutItemNeverCalls(api: ShoppingCartWebApi, itemId: int64, rt: Runtime)
    ensures var o := PostRequestAddItemToShoppingCart(api, itemId, None, rt);
      o.call.None? && o.result.Failure? && o.result.error.exception.errorCode == 400
  {
  }

  /** The request the transport receives for an added item carries its JSON as the one
      body parameter, after the client's default headers. */
  lemma AddItemRequestCarriesBody(api: ShoppingCartWebApi, itemId: int64, item: Item, rt: Runtime)
    requires rt.encodeItem(item).Encoded?
    ensures var o := PostRequestAddItemToShoppingCart(api, itemId, Some(item), rt);
      var req := CallApi(api.apiClient, o.call.value, rt.transport).request;
      && req.httpMethod == POST
      && req.parameters == AsParameters(api.apiClient.defaultHeader, HttpHeader)
           + [Parameter("application/json", rt.encodeItem(item).json, RequestBody)]
      && req.files == []
  {
    var o := PostRequestAddItemToShoppingCart(api, itemId, Some(item), rt);
    var req := CallApi(api.apiClient, o.call.value, rt.transport).request;
    var defaults := AsParameters(api.apiClient.defaultHeader, HttpHeader);
    assert AsParameters([], HttpHeader) == [] && AsParameters([], GetOrPost) == [];
    assert defaults + [] + [] + [] == defaults;
  }
}
