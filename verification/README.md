# ShoppingCartWebApi client — a Dafny model

This project models the generated C# client of the ShoppingCart web API:

- the `ShoppingCartWebApi` facade with its four cart operations (clear the cart, remove
  an item, update an item's count, add an item);
- the `ApiClient` that assembles each request and hands it to RestSharp;
- the process-wide `Configuration` settings;
- the `ApiClientExtensions` helpers for parameter rendering, JSON wrapping and base64.

Everything is modelled as pure functions over immutable values:

- The HTTP transport (`RestClient.Execute`), the JSON codec (`JsonConvert`) and
  `DateTime.ToString(format)` are function-typed parameters (`Transport`, `Encoded`/`Decoded`
  codec functions, `DateFormatter`). Only one property assumes anything about them:
  `Extensions.SerializeDeserialize` requires `RoundTrips`, i.e. that the codec decodes
  every text it encodes back to the encoded object.
- These C# references that the code tests for null or dereferences are `Option`s, with
  null as `None`: the facade's client and item arguments, the object given to `Serialize` or
  `ParameterToString`, the key given to `AddDefaultHeader` or `GetApiKeyWithPrefix`, the
  values given to the configuration setters, the body given to `CallApi`, the text given to
  `Base64Encode` and the stream given to `ParameterToFile`. `NewApiClient`'s argument differs: there `None` means the argument
  was omitted (so the default "https://localhost" applies). The other reference
  parameters (the other strings and `CallApi`'s dictionaries) are never null in the model;
  "## Left out" lists them.
- An exception is a `Result.Failure` carrying a `Failure`. That is an `ApiException` or
  one of the .NET exceptions the code lets escape: `ArgumentNullException` (a null
  dictionary key, or a null text in `Base64Encode`), `NullReferenceException` (a null
  stream in `ParameterToFile`), a duplicate dictionary key, or an unwrapped codec error.
- A `Dictionary` whose enumeration order matters is a sequence of entries in insertion
  order. Those are `CallApi`'s parameter maps and the default headers. Nothing in the type
  forces distinct keys; `AddDefaultHeader` keeps the default headers' keys distinct when
  they already are, and the lemmas that need distinct keys require them. The
  `ApiKey`/`ApiKeyPrefix` tables are Dafny maps.
- Each facade operation returns an `Outcome`: the `CallApi` arguments it used (`None`
  when it failed before calling) and the cart it returned or the failure it threw.
- `string.IsNullOrEmpty` is `Strings.IsNullOrEmpty`, and the two-argument `ApiException`
  constructor (Client/ApiException.cs:17-20), which leaves `ErrorContent` null, is
  `Errors.ApiExceptionOf`.
- The static `Configuration` is an explicit value. The shared default client
  `Configuration.ShoppingCartWebApiClient` is passed to the facade constructor as an
  argument.

Modules, one per file: `Wrappers` (Option/Result), `Primitives` (byte, int32, int64),
`DecimalText` (`Convert.ToString` of integers and a parser for it), `Strings` (ordinal
`String.Replace`, `String.Join(",")`), `Paths` (`Path.GetFileName`), `Utf8` (UTF-8
encoding), `Base64` (section 4 of RFC 4648), `Models`, `Errors`, `Config`, `Extensions`,
`Client`, `Api`.

## Model

| member | source | states |
|---|---|---|
| Api.NewShoppingCartWebApi | Api/ShoppingCartWebApi.cs:19-22 | A given client is used as is; a null client selects the shared default client. |
| Api.NewShoppingCartWebApiAt | Api/ShoppingCartWebApi.cs:28-31 | The facade built from a base path reports exactly that base path and starts with no default headers. |
| Api.DefaultFacadeBasePath | Client/ApiClient.cs:19-23 | A facade on the shared client, built without a base path, talks to "https://localhost". |
| Api.GetBasePath | Api/ShoppingCartWebApi.cs:174-177 | The base path reported is the one every request of the facade's client is executed on. |
| Api.BasePathFixed | Client/ApiClient.cs:29 | Adding a default header never changes the base path the facade reports. |
| Api.HandleResponse | Api/ShoppingCartWebApi.cs:58-65 | Status 400 and above throws ApiException(status, "Error calling Op: " + content, content); status 0 throws ApiException(0, … + ErrorMessage, ErrorMessage); any other status decodes the body as a cart, an IOException there becoming ApiException(500). |
| Api.HandleResponseSucceedsIff | Api/ShoppingCartWebApi.cs:58-65 | An operation returns a cart if and only if the status is neither 0 nor 400 and above and the body decodes; an ApiException carrying the response status only arises for status 0 or 400 and above (or 500 from the codec). |
| Api.DeleteRequestDeleteAllItemsFromShoppingCart | Api/ShoppingCartWebApi.cs:44-66 | The clear operation calls CallApi once with path "/shoppingcart" (the "{format}" replacement changes nothing), DELETE, no body and empty maps, and returns the classified response. |
| Api.ItemPath | Api/ShoppingCartWebApi.cs:76-78 | The item template with "{format}" and "{itemid}" substituted is "/shoppingcart/" followed by the decimal rendering of the id. |
| Api.DeleteRequestDeleteItemByItemId | Api/ShoppingCartWebApi.cs:74-97 | The remove operation sends DELETE to "/shoppingcart/<itemId>" with no body and empty maps. |
| Api.RemoveItemPathNamesItem | Api/ShoppingCartWebApi.cs:76-78 | The remove path starts with "/shoppingcart/" and the rest parses back to the item id. |
| Api.ItemCountPath | Api/ShoppingCartWebApi.cs:108-111 | The update template with all three placeholders substituted is "/shoppingcart/" + id + "/" + count in decimal. |
| Api.PutRequestUpdateItemCountForAnItemId | Api/ShoppingCartWebApi.cs:106-130 | The update operation sends PUT to "/shoppingcart/<itemId>/<itemCount>" with no body and empty maps. |
| Api.UpdatePathIsResolved | Api/ShoppingCartWebApi.cs:108-111 | No '{' or '}' survives in the update path. |
| Api.UpdatePathInjective | Api/ShoppingCartWebApi.cs:108-111 | Different (itemId, itemCount) pairs give different update paths. |
| Api.ItemCountPathsDistinct | Api/ShoppingCartWebApi.cs:108-111 | Two rendered update paths are equal only for equal ids and counts. |
| Api.PostRequestAddItemToShoppingCart | Api/ShoppingCartWebApi.cs:139-168 | A null item throws ApiException(400, "Missing required parameter 'body' …") without calling CallApi; a serialisation failure throws ApiException(500) without calling it; otherwise it sends POST to "/shoppingcart/<itemId>" with the item's JSON as the body and empty maps. |
| Api.AddWithoutItemNeverCalls | Api/ShoppingCartWebApi.cs:142-143 | Whatever the runtime, adding a null item never reaches the transport and fails with code 400. |
| Api.AddItemRequestCarriesBody | Api/ShoppingCartWebApi.cs:154-158 | The request the transport receives for an added item holds the default headers and then exactly one RequestBody parameter, "application/json" with the item's JSON, and no files. |
| Api.ItemTemplateHasNoFormat | Api/ShoppingCartWebApi.cs:77 | Replacing "{format}" in the item template changes nothing. |
| Api.ItemTemplateItemId | Api/ShoppingCartWebApi.cs:78 | Replacing "{itemid}" in the item template gives the prefix followed by the id text. |
| Api.ItemCountTemplateHasNoFormat | Api/ShoppingCartWebApi.cs:109 | Replacing "{format}" in the update template changes nothing. |
| Api.ItemCountTemplateItemId | Api/ShoppingCartWebApi.cs:110 | Replacing "{itemid}" in the update template substitutes the id and leaves "{itemcount}" in place. |
| Api.ItemCountTemplateItemCount | Api/ShoppingCartWebApi.cs:111 | Replacing "{itemcount}" after a brace-free prefix substitutes the count. |
| Client.NewApiClient | Client/ApiClient.cs:19-23 | A client without a base path uses "https://localhost"; a new client has no default headers. |
| Client.AddParameters | Client/ApiClient.cs:61-74 | Each foreach over a dictionary appends one parameter per entry, in enumeration order, after those already added. |
| Client.BuildRequest | Client/ApiClient.cs:58-81 | The request's parameters are the default headers, the call's headers, the query parameters, the form parameters (both GetOrPost) and the body, in that order; the files follow the file dictionary's order. |
| Client.ParameterPositions | Client/ApiClient.cs:61-74 | Default header i sits at position i, and call headers, query and form entries follow at their offsets; the count is the sum plus one for a body. |
| Client.BodyParameterIffPostBody | Client/ApiClient.cs:80-81 | A RequestBody parameter is present if and only if postBody is non-null, and then it is the single last parameter, "application/json" with the body text. |
| Client.ParameterKindsInOrder | Client/ApiClient.cs:61-81 | Every header parameter precedes every GetOrPost parameter, which precede the body. |
| Client.Lookup | Client/ApiClient.cs:95 | A dictionary lookup finds a value exactly when some entry has the key, and the value found is that of the first entry with the key. |
| Client.LookupDistinct | Client/ApiClient.cs:95 | In a dictionary with distinct keys, looking up any entry's key gives that entry's value. |
| Client.AddDefaultHeader | Client/ApiClient.cs:93-96 | A null key throws ArgumentNullException; a key already present throws and nothing changes; otherwise exactly the new entry is appended and the base path is untouched. |
| Client.AddDefaultHeaderLookup | Client/ApiClient.cs:93-96 | After a successful add, the new key maps to the new value, every other key keeps its value, and keys stay distinct. |
| Client.LookupAppend | Client/ApiClient.cs:95 | Looking up in a dictionary with one more entry gives the old answer, or the new entry's value for its key. |
| Client.CallApi | Client/ApiClient.cs:54-84 | The transport receives the request built from the call (its resource, method, parameters in the default-header, header, query, form, body order, and files) on the client's base path, and its response is returned. |
| Client.ParameterToFile | Client/ApiClient.cs:116-119 | A null stream throws NullReferenceException from reading it; otherwise the file parameter holds the stream's remaining bytes; a FileStream is named after the last component of its path (no separator in it, preceded by a separator when shorter than the path); any other stream is named "no_file_name_provided". |
| Client.GetApiKeyWithPrefixRegistered | Client/ApiClient.cs:128-134 | After registering a key and a prefix for a scheme the result is prefix + " " + key; with only the key it is the key; with only the prefix it is prefix + " "; with neither it is null; other schemes keep their result. |
| Client.GetApiKeyWithPrefix | Client/ApiClient.cs:128-134 | With a registered prefix the result is prefix + " " + key, a missing key reading as ""; without one it is the stored key, or null when the scheme has no key; a null identifier throws. |
| Paths.GetFileName | Client/ApiClient.cs:119 | The file name is a separator-free suffix of the path, preceded by a separator when it is not the whole path. |
| Paths.GetFileNameOfJoined | Client/ApiClient.cs:119 | The file name of dir + separator + name is name. |
| Config.Initial | Client/Configuration.cs:26-36 | At start-up ApiKey and ApiKeyPrefix are empty, the date-time format is "o" and the temp folder is the system temp path. |
| Config.SetDateTimeFormat | Client/Configuration.cs:74-90 | A null or empty value restores "o", anything else is stored verbatim, the format is never blank, and no other setting changes. |
| Config.SetTempFolderPath | Client/Configuration.cs:46-63 | A null or empty value is stored as given; otherwise the stored path starts with the value, ends with the directory separator and is at most one longer; a value already ending with it is stored unchanged; no other setting changes. |
| Config.ValidPreserved | Client/Configuration.cs:74-90 | Assignments to the date-time format and the temp folder, in any number and order, keep the date-time format non-blank. |
| Config.DateTimeFormatNeverBlank | Client/Configuration.cs:74-90 | Starting from the start-up settings, whatever sequence of assignments the program makes, the date-time format read back is never blank. |
| Config.SetDateTimeFormatIdempotent | Client/Configuration.cs:79-88 | Setting the format to the value just read back changes nothing. |
| Config.SetTempFolderPathIdempotent | Client/Configuration.cs:59-60 | Setting the temp folder to the value just read back changes nothing. |
| Config.SettersCommute | Client/Configuration.cs:46-90 | The two setters touch different settings, so their order does not matter. |
| Extensions.ParameterToString | Client/Extensions/ApiClientExtensions.cs:22-33 | A DateTime is formatted with the configured format; a string list is joined with ","; an integer gives the canonical decimal text that parses back to it; a string is returned as is; null gives ""; any other object gives its own ToString(). |
| Extensions.ParameterToStringInteger | Client/Extensions/ApiClientExtensions.cs:32 | An integer renders as an optional '-' and decimal digits that parse back to it, with '-' exactly for negatives, no leading zero ("0" alone for zero) and no "-0"; it is the only canonical text that parses to the integer. |
| Extensions.ParameterToStringList | Client/Extensions/ApiClientExtensions.cs:28-29 | A string list renders as its elements joined with ",": "" for the empty list, the element for a singleton, the summed length plus separators, and comma-free elements split back out. |
| Extensions.ParameterToStringDate | Client/Extensions/ApiClientExtensions.cs:26-27 | A date is formatted with the configured format, which falls back to "o" after a null or empty setting. |
| Extensions.Serialize | Client/Extensions/ApiClientExtensions.cs:88-98 | Null serialises to null (not the text "null"); a non-null object gives the codec's text; a codec exception becomes ApiException(500, its message); a successful result is non-null exactly for a non-null object. |
| Extensions.Deserialize | Client/Extensions/ApiClientExtensions.cs:42-81 | An `object` or `string` target returns the content unchanged; a model target is decoded, with only an IOException wrapped as ApiException(500, message). |
| Extensions.SerializeDeserialize | Client/Extensions/ApiClientExtensions.cs:73-98 | With a codec that reads back what it writes, deserialising the serialised text gives the object back, and an `object` target gives back the text itself. |
| Extensions.Base64Encode | Client/Extensions/ApiClientExtensions.cs:105-109 | A null text throws ArgumentNullException (parameter "s"); otherwise the result has length 4·⌈n/3⌉ for the n UTF-8 bytes, uses only alphabet characters with '=' padding in the last two places, and decodes back to those bytes. |
| Extensions.Base64EncodeUnique | Client/Extensions/ApiClientExtensions.cs:105-109 | Any base64 text that strictly decodes to a byte sequence that strictly UTF-8 decodes to the text is the result of Base64Encode, so the encoding is pinned down by its decoder. |
| Extensions.Base64EncodeRoundTrip | Client/Extensions/ApiClientExtensions.cs:105-109 | Base64 decoding and then UTF-8 decoding the output gives back the original text. |
| Extensions.Base64EncodeAsciiLength | Client/Extensions/ApiClientExtensions.cs:105-109 | For ASCII text the output length is 4·⌈n/3⌉ in characters. |
| Base64.Encode | Client/Extensions/ApiClientExtensions.cs:108 | The encoding has four characters per started group of three bytes. |
| Base64.EncodeAlphabet | Client/Extensions/ApiClientExtensions.cs:108 | Every output character is from the base64 alphabet, except '=' padding in the last two places. |
| Base64.DecodeEncode | Client/Extensions/ApiClientExtensions.cs:108 | Decoding the encoding of any byte sequence gives it back. |
| Base64.EncodeDecode | Client/Extensions/ApiClientExtensions.cs:108 | Every text the strict decoder accepts (no non-zero pad bits) is the encoding of what it decodes to. |
| Base64.DecodeInjective | Client/Extensions/ApiClientExtensions.cs:108 | Two texts the decoder accepts with the same bytes are equal. |
| Utf8.EncodeScalar | Client/Extensions/ApiClientExtensions.cs:107 | A scalar value encodes to 1 to 4 bytes, one byte exactly for ASCII. |
| Utf8.Encode | Client/Extensions/ApiClientExtensions.cs:107 | A text of n characters encodes to between n and 4n bytes. |
| Utf8.DecodeEncode | Client/Extensions/ApiClientExtensions.cs:107 | Decoding the UTF-8 encoding of any text gives it back. |
| Utf8.EncodeDecode | Client/Extensions/ApiClientExtensions.cs:107 | Every byte sequence the strict decoder accepts (no overlong forms, no surrogates) is the encoding of what it decodes to. |
| Utf8.DecodeInjective | Client/Extensions/ApiClientExtensions.cs:107 | Two byte sequences the decoder accepts with the same text are equal. |
| Utf8.EncodeAscii | Client/Extensions/ApiClientExtensions.cs:107 | ASCII text encodes to one byte per character. |
| DecimalText.IntToString | Client/Extensions/ApiClientExtensions.cs:32 | The rendering is non-empty, starts with '-' exactly for negatives, is otherwise digits, has no leading zero ("0" alone for zero) and is never "-0". |
| DecimalText.IntToStringOfParse | Client/Extensions/ApiClientExtensions.cs:32 | Every canonical decimal text parses and renders back to itself, so the rendering is the one canonical text of its integer. |
| DecimalText.IntRoundTrip | Client/Extensions/ApiClientExtensions.cs:32 | Parsing the rendering of any integer gives it back. |
| DecimalText.IntToStringInjective | Client/Extensions/ApiClientExtensions.cs:32 | Different integers render differently. |
| DecimalText.IntToStringOnly | Client/Extensions/ApiClientExtensions.cs:32 | The rendering holds no character other than digits and '-'. |
| Strings.Replace | Api/ShoppingCartWebApi.cs:109-111 | Replacing a pattern by a text of the same length keeps the length, and replacing it by itself changes nothing. |
| Strings.ReplaceNoOccurrence | Api/ShoppingCartWebApi.cs:109-111 | A text in which the pattern occurs nowhere is left unchanged. |
| Strings.ReplaceAbsent | Api/ShoppingCartWebApi.cs:47 | Replacing a pattern whose first character does not occur leaves the text unchanged. |
| Strings.ReplaceSlot | Api/ShoppingCartWebApi.cs:110 | The first placeholder after a prefix free of its first character is the one substituted. |
| Strings.Join | Client/Extensions/ApiClientExtensions.cs:29 | The join of no strings is ""; otherwise it starts with the first element, followed by ',' when there are more, and ends with the last element. |
| Strings.SplitJoin | Client/Extensions/ApiClientExtensions.cs:29 | Splitting the ","-join of comma-free strings at commas gives them back. |
| Strings.JoinLength | Client/Extensions/ApiClientExtensions.cs:29 | The join's length is the sum of the lengths plus one separator between neighbours. |

## Left out

- The HTTP transport: `RestClient.Execute` (Client/ApiClient.cs:83) and the RestSharp types are foreign code. The transport is a function parameter; response headers are carried but not interpreted.
- The JSON codec: `JsonConvert.SerializeObject`/`DeserializeObject` and the models' `ToJson`/`ToString` (Models/Item.cs:53-61, Models/ShoppingCart.cs:47-60) are library code. They are function parameters.
- The stream branch of `Deserialize` (Client/Extensions/ApiClientExtensions.cs:47-64) writes a temporary file with a random name. That is file I/O and randomness.
- The DateTime and `Nullable` branches of `Deserialize` (Client/Extensions/ApiClientExtensions.cs:66-70) and `ConvertType` (118-121) are library conversions. Their `Type.Name.StartsWith("System.Nullable…")` tests can never match, because `Type.Name` has no namespace. Only `string` reaches line 70, and `Convert.ChangeType` of a string to `string` returns it unchanged, so the model keeps a closed set of target shapes.
- `EscapeString` (Client/ApiClient.cs:104-107) delegates to `HttpUtility.UrlEncode`, whose escape set is library behaviour.
- `ToDebugReport` (Client/Configuration.cs:95-106) reads the environment and assembly metadata.
- Directory creation in the `TempFolderPath` setter (Client/Configuration.cs:55-56) is filesystem I/O. Only the string normalisation is modelled.
- Concurrency and static state: the static `Configuration` fields and the unsynchronised default-header dictionary are not modelled as shared mutable state. The configuration is an explicit value, and the shared client is an explicit argument.
- The interface files (Api/IShoppingCartWebApi.cs, Client/Interfaces/IApiClient.cs, Models/Interfaces/IModel.cs) only declare signatures.
- `new ApiClient(null)` (an explicit null base path, which the constructor stores) is not modelled: `NewApiClient(None)` stands for the omitted argument.
- Client.CallApi: a null `queryParams`, `headerParams`, `formParams` or `fileParams` dictionary is not modelled. The client's `foreach` over it (Client/ApiClient.cs:65-77) would throw `NullReferenceException`, but every facade operation passes freshly created dictionaries (Api/ShoppingCartWebApi.cs:49-52).
- A null `path`, header value or parameter value passed to `CallApi`, a null parameter name, a null `basePath` given to the facade constructor, and null strings inside the parameter dictionaries are not modelled. These are `string` parameters that the client passes on to RestSharp or stores without testing them.
- RestSharp's validation of the base path as a URI, in `new RestClient(BasePath)`, is not modelled. Any string is accepted as a base path.
- `Convert.ToString` of an integer uses the current culture's negative sign. The model uses '-' and ASCII digits, which is the invariant culture.
- Dafny characters are Unicode scalar values. C# strings are UTF-16 and may hold lone surrogates, which `Encoding.UTF8` replaces with U+FFFD; that case is not modelled.
- .NET `decimal` (`Item.Value`, `ShoppingCart.TotalValue`) is modelled as an exact `real`. Its 28-digit precision limit is not modelled.
- Null dictionary values, null list elements and null response content are not modelled. Strings inside these collections are always present.
- `Path.GetFileName` is modelled as "after the last directory, alternate or volume separator". Windows root and invalid-character handling is not modelled.
- A file parameter's `Writer` callback is modelled as the bytes it would write.
- The cart totals (`TotalItemCount`, `TotalValue` against `ItemList`/`ItemCountMap`) are not constrained. No client code builds or checks them.
- Extensions.ParameterToString: the `Other` case carries the object's own `ToString()` result as given, since arbitrary objects' `ToString` is outside the model.
