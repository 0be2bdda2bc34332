/** `Configuration`: the process-wide settings, as an explicit value. Each setter returns
    the updated configuration. */
module Config {
  import opened Wrappers
  import opened Strings
  import opened Paths

  /** The round-trip ("o") format of `DateTime.ToString`, i.e. ISO 8601. */
  const Iso8601DateTimeFormat: string := "o"

  /** `ApiKey` and `ApiKeyPrefix` map an authentication scheme to its key and to the
      prefix (e.g. "Bearer") written before the key. */
  datatype Configuration = Configuration(
    apiKey: map<string, string>,
    apiKeyPrefix: map<string, string>,
    tempFolderPath: Option<string>,
    dateTimeFormat: string)

  /** The date-time format is never blank: the default is "o" and the setter falls back
      to it. */
  predicate Valid(c: Configuration) {
    c.dateTimeFormat != ""
  }

  /** The settings at start-up; `systemTempPath` is what `Path.GetTempPath()` returns. */
  function Initial(systemTempPath: string): (c: Configuration)
    ensures Valid(c)
    ensures c.apiKey == map[] && c.apiKeyPrefix == map[]
    ensures c.dateTimeFormat == "o"
    ensures c.tempFolderPath == Some(systemTempPath)
  {
    Configuration(map[], map[], Some(systemTempPath), Iso8601DateTimeFormat)
  }

  /** The `DateTimeFormat` setter: a null or empty value restores the default, anything
      else is stored verbatim. No other setting changes. */
  function SetDateTimeFormat(c: Configuration, value: Option<string>): (r: Configuration)
    ensures Valid(r)
    ensures IsNullOrEmpty(value) ==> r.dateTimeFormat == "o"
    ensures !IsNullOrEmpty(value) ==> r.dateTimeFormat == value.value
    ensures r.(dateTimeFormat := c.dateTimeFormat) == c
  {
    if IsNullOrEmpty(value) then c.(dateTimeFormat := Iso8601DateTimeFormat)
    else c.(dateTimeFormat := value.value)
  }

  /** The `TempFolderPath` setter (directory creation aside): a null or empty value is
      stored as given; otherwise the path is stored so that it ends with the directory
      separator, appending one only when it is missing. No other setting changes. */
  function SetTempFolderPath(c: Configuration, value: Option<string>, platform: Platform): (r: Configuration)
    ensures Valid(c) ==> Valid(r)
    ensures IsNullOrEmpty(value) ==> r.tempFolderPath == value
    ensures !IsNullOrEmpty(value) ==>
      && r.tempFolderPath.Some?
      && EndsWith(r.tempFolderPath.value, platform.directorySeparator)
      && |value.value| <= |r.tempFolderPath.value| <= |value.value| + 1
      && r.tempFolderPath.value[..|value.value|] == value.value
    ensures EndsWith(value.GetOr(""), platform.directorySeparator) ==> r.tempFolderPath == value
    ensures r.(tempFolderPath := c.tempFolderPath) == c
  {
    if IsNullOrEmpty(value) then c.(tempFolderPath := value)
    else
      var path := value.value;
      if path[|path| - 1] == platform.directorySeparator then c.(tempFolderPath := value)
      else c.(tempFolderPath := Some(path + [platform.directorySeparator]))
  }

  /** Setting the date-time format again to the value just read back changes nothing. */
  lemma SetDateTimeFormatIdempotent(c: Configuration, value: Option<string>)
    ensures var r := SetDateTimeFormat(c, value);
      SetDateTimeFormat(r, Some(r.dateTimeFormat)) == r
  {
  }

  /** Setting the temp folder again to the value just read back changes nothing. */
  lemma SetTempFolderPathIdempotent(c: Configuration, value: Option<string>, platform: Platform)
    ensures var r := SetTempFolderPath(c, value, platform);
      SetTempFolderPath(r, r.tempFolderPath, platform) == r
  {
  }

  /** The two setters touch different settings, so their order does not matter. */
  lemma SettersCommute(c: Configuration, format: Option<string>, path: Option<string>, platform: Platform)
    ensures SetTempFolderPath(SetDateTimeFormat(c, format), path, platform)
         == SetDateTimeFormat(SetTempFolderPath(c, path, platform), format)
  {
  }

  /** One assignment to a `Configuration` property that has a setter. */
  datatype Setting =
    | DateTimeFormatSetting(format: Option<string>)
    | TempFolderPathSetting(path: Option<string>, platform: Platform)

  /** The configuration after the given assignments, in order. */
  function ApplySettings(c: Configuration, settings: seq<Setting>): Configuration
    decreases |settings|
  {
    if |settings| == 0 then c
    else
      var next := match settings[0]
        case DateTimeFormatSetting(format) => SetDateTimeFormat(c, format)
        case TempFolderPathSetting(path, platform) => SetTempFolderPath(c, path, platform);
      ApplySettings(next, settings[1..])
  }

  /** Whatever the program assigns, in whatever order, the date-time format it reads
      back is never blank. */
  lemma {:induction false} DateTimeFormatNeverBlank(systemTempPath: string, settings: seq<Setting>)
    ensures ApplySettings(Initial(systemTempPath), settings).dateTimeFormat != ""
  {
    ValidPreserved(Initial(systemTempPath), settings);
  }

  /** Every assignment keeps the date-time format non-blank. */
  lemma {:induction false} ValidPreserved(c: Configuration, settings: seq<Setting>)
    requires Valid(c)
    ensures Valid(ApplySettings(c, settings))
    decreases |settings|
  {
    if |settings| > 0 {
      var next := match settings[0]
        case DateTimeFormatSetting(format) => SetDateTimeFormat(c, format)
        case TempFolderPathSetting(path, platform) => SetTempFolderPath(c, path, platform);
      ValidPreserved(next, settings[1..]);
    }
  }
}
