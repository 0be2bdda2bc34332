/** `ApiClientExtensions`: parameter rendering, the JSON codec wrappers and base64. The
    JSON codec and `DateTime` formatting are library code and are passed in as functions. */
module Extensions {
  import opened Wrappers
  import Primitives
  import opened Errors
  import opened Strings
  import opened DecimalText
  import Config
  import Utf8
  import Base64

  /** A `System.DateTime`: 100-nanosecond ticks since 0001-01-01 and its kind. */
  datatype DateTimeKind = Unspecified | Utc | Local
  datatype DateTime = DateTime(ticks: int, kind: DateTimeKind)

  /** `DateTime.ToString(format)`, which is library behaviour. */
  type DateFormatter = (DateTime, string) -> string

  /** The runtime shapes `ParameterToString` distinguishes. `Other` stands for any other
      object and carries what its own `ToString()` returns. */
  datatype ParamValue =
    | DateTimeValue(dateTime: DateTime)
    | StringList(items: seq<string>)
    | Integer(n: int)
    | Text(s: string)
    | Null
    | Other(toStringResult: string)

  /** `ParameterToString`: dates use the configured format, string lists are joined with
      ",", everything else goes through `Convert.ToString` (decimal digits for integers,
      the empty string for null). */
  function ParameterToString(obj: ParamValue, config: Config.Configuration, formatDate: DateFormatter): (s: string)
    ensures obj.DateTimeValue? ==> s == formatDate(obj.dateTime, config.dateTimeFormat)
    ensures obj.StringList? ==> s == Join(obj.items)
    ensures obj.Integer? ==> CanonicalInt(s) && ParseInt(s) == Some(obj.n)
    ensures obj.Text? ==> s == obj.s
    ensures obj.Null? ==> s == ""
    ensures obj.Other? ==> s == obj.toStringResult
  {
    match obj
    case DateTimeValue(d) => formatDate(d, config.dateTimeFormat)
    case StringList(items) => Join(items)
    case Integer(n) => IntRoundTrip(n); IntToString(n)
    case Text(s) => s
    case Null => ""
    case Other(t) => t
  }

  /** An integer renders as decimal text that parses back to it: an optional '-' and
      digits only, with no leading zero, so it never contains a brace, a slash or a comma,
      and it is the one canonical text that parses to `n`. */
  lemma ParameterToStringInteger(n: int, config: Config.Configuration, formatDate: DateFormatter)
    ensures var s := ParameterToString(Integer(n), config, formatDate);
      && ParseInt(s) == Some(n)
      && |s| > 0
      && (forall i :: 0 <= i < |s| ==> IsDigit(s[i]) || (i == 0 && s[i] == '-'))
      && (n < 0 <==> s[0] == '-')
      && (s[0] == '0' ==> s == "0")
      && (n < 0 ==> s[1] != '0')
      && (forall t :: CanonicalInt(t) && ParseInt(t) == Some(n) ==> t == s)
  {
    var s := ParameterToString(Integer(n), config, formatDate);
    IntRoundTrip(n);
    forall i | 0 <= i < |s| ensures IsDigit(s[i]) || (i == 0 && s[i] == '-') {
      if n < 0 && i > 0 {
        assert s[i] == s[1..][i - 1];
      }
    }
    forall t | CanonicalInt(t) && ParseInt(t) == Some(n) ensures t == s {
      IntToStringOfParse(t);
    }
  }

  /** A list of strings renders as its elements joined with ",": the empty list gives "",
      a singleton gives its element, and comma-free elements can be split back out. */
  lemma ParameterToStringList(items: seq<string>, config: Config.Configuration, formatDate: DateFormatter)
    ensures var s := ParameterToString(StringList(items), config, formatDate);
      && (|items| == 0 ==> s == "")
      && (|items| == 1 ==> s == items[0])
      && (|items| > 0 ==> |s| == TotalLength(items) + |items| - 1)
      && (|items| > 0 && (forall i :: 0 <= i < |items| ==> ',' !in items[i]) ==> Split(s) == items)
  {
    if |items| > 0 {
      JoinLength(items);
      if forall i :: 0 <= i < |items| ==> ',' !in items[i] {
        SplitJoin(items);
      }
    }
  }

  /** A date renders with whatever format the configuration currently holds; a null or
      empty format setting falls back to the round-trip format "o". */
  lemma ParameterToStringDate(d: DateTime, config: Config.Configuration, format: Option<string>, formatDate: DateFormatter)
    ensures var c := Config.SetDateTimeFormat(config, format);
      ParameterToString(DateTimeValue(d), c, formatDate)
        == formatDate(d, if IsNullOrEmpty(format) then Config.Iso8601DateTimeFormat else format.value)
  {
  }

  /** What `JsonConvert.SerializeObject` does: produce text or throw. */
  datatype Encoded = Encoded(json: string) | EncodeError(message: string)

  /** `Serialize`: null stays null (no body, not the text "null"); a non-null object is
      encoded, and any codec exception becomes `ApiException(500, message)`. */
  function Serialize<T>(obj: Option<T>, encode: T -> Encoded): (r: Result<Option<string>, Failure>)
    ensures obj.None? ==> r == Success(None)
    ensures obj.Some? && encode(obj.value).Encoded? ==> r == Success(Some(encode(obj.value).json))
    ensures obj.Some? && encode(obj.value).EncodeError? ==>
      r == Failure(ApiError(ApiException(500, encode(obj.value).message, None)))
    ensures r.Success? ==> (r.value.Some? <==> obj.Some?)
  {
    match obj
    case None => Success(None)
    case Some(o) =>
      match encode(o)
      case Encoded(json) => Success(Some(json))
      case EncodeError(message) => Failure(ApiError(ApiExceptionOf(500, message)))
  }

  /** What `JsonConvert.DeserializeObject` does: produce an object (null for an empty or
      "null" body), throw an `IOException`, or throw some other exception. */
  datatype Decoded<T> = Decoded(value: Option<T>) | IoError(message: string) | JsonError(message: string)

  /** The target types `Deserialize` can be asked for in this client. */
  datatype Shape = ObjectShape | StringShape | ModelShape

  /** What `Deserialize` returns: the text itself, or the decoded model object. */
  datatype Deserialized<T> = RawText(text: string) | ModelValue(value: Option<T>)

  /** `Deserialize`: `object` and `string` targets give back the content unchanged; a
      model target is JSON-decoded, with only an `IOException` turned into
      `ApiException(500, message)`. */
  function Deserialize<T>(content: string, shape: Shape, decode: string -> Decoded<T>): (r: Result<Deserialized<T>, Failure>)
    ensures shape != ModelShape ==> r == Success(RawText(content))
    ensures shape == ModelShape ==> match decode(content)
      case Decoded(v) => r == Success(ModelValue(v))
      case IoError(m) => r == Failure(ApiError(ApiException(500, m, None)))
      case JsonError(m) => r == Failure(CodecError(m))
  {
    match shape
    case ObjectShape => Success(RawText(content))
    case StringShape => Success(RawText(content))
    case ModelShape =>
      match decode(content)
      case Decoded(v) => Success(ModelValue(v))
      case IoError(m) => Failure(ApiError(ApiExceptionOf(500, m)))
      case JsonError(m) => Failure(CodecError(m))
  }

  /** The codec pair reads back every object it writes. */
  ghost predicate RoundTrips<T(!new)>(encode: T -> Encoded, decode: string -> Decoded<T>) {
    forall x: T :: encode(x).Encoded? ==> decode(encode(x).json) == Decoded(Some(x))
  }

  /** With a codec that round-trips, deserialising the text `Serialize` produced gives the
      object back; and asking for `object` gives back the serialised text itself. */
  lemma SerializeDeserialize<T(!new)>(x: T, encode: T -> Encoded, decode: string -> Decoded<T>)
    requires RoundTrips(encode, decode)
    requires encode(x).Encoded?
    ensures var text := Serialize(Some(x), encode).value.value;
      && Deserialize(text, ModelShape, decode) == Success(ModelValue(Some(x)))
      && Deserialize(text, ObjectShape, decode) == Success(RawText(encode(x).json))
  {
  }

  /** `Base64Encode`: the base64 text (RFC 4648, section 4) of the UTF-8 bytes of `text`;
      four characters per started group of three bytes, alphabet characters with '='
      padding only at the end, and decodable back to those bytes. A null text makes
      `Encoding.UTF8.GetBytes` throw `ArgumentNullException` for its parameter `s`. */
  function Base64Encode(text: Option<string>): (r: Result<string, Failure>)
    ensures r.Failure? <==> text.None?
    ensures r.Failure? ==> r.error == ArgumentNull("s")
    ensures r.Success? ==> var s, bytes := r.value, Utf8.Encode(text.value);
      && |s| == 4 * ((|bytes| + 2) / 3)
      && (forall i :: 0 <= i < |s| ==> Base64.IsAlphabetChar(s[i]) || (s[i] == Base64.Pad && i >= |s| - 2))
      && Base64.Decode(s) == Some(bytes)
  {
    match text
    case None => Failure(ArgumentNull("s"))
    case Some(t) =>
      var bytes := Utf8.Encode(t);
      Base64.EncodeAlphabet(bytes);
      Base64.DecodeEncode(bytes);
      Success(Base64.Encode(bytes))
  }

  /** The original text can be recovered from `Base64Encode`'s output. */
  lemma Base64EncodeRoundTrip(text: string)
    ensures Base64.Decode(Base64Encode(Some(text)).value).Some?
    ensures Utf8.Decode(Base64.Decode(Base64Encode(Some(text)).value).value) == Some(text)
  {
    Utf8.DecodeEncode(text);
  }

  /** `Base64Encode` is the only text of padded base64 that decodes to the UTF-8 bytes
      of `text`, and those bytes are the only UTF-8 that decodes to `text`: the output is
      pinned down, non-zero pad bits and overlong forms included. */
  lemma Base64EncodeUnique(text: string, s: string, bytes: seq<Primitives.byte>)
    requires Utf8.Decode(bytes) == Some(text)
    requires Base64.Decode(s) == Some(bytes)
    ensures s == Base64Encode(Some(text)).value
  {
    Utf8.EncodeDecode(bytes);
    Base64.DecodeInjective(s, Base64Encode(Some(text)).value);
  }

  /** For ASCII text the output length is 4 * ceil(n / 3) in the number of characters. */
  lemma Base64EncodeAsciiLength(text: string)
    requires forall i :: 0 <= i < |text| ==> text[i] as int < 0x80
    ensures |Base64Encode(Some(text)).value| == 4 * ((|text| + 2) / 3)
  {
    Utf8.EncodeAscii(text);
  }
}
