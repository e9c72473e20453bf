/**
  Library-wide configuration: four settings with defaults, a partial configuration that overrides
  some of them, and the rule a field uses to pick the value of one setting.
 */
module Config {
  import opened Wrappers
  import opened Values

  /** The settings a configuration can hold. */
  datatype ConfigKey = NumRows | CurrencyCode | ShowCurrency | SupportCropCenter

  /** The property name each setting has in a configuration object. */
  function KeyName(key: ConfigKey): string {
    match key
    case NumRows => "textArea.numRows"
    case CurrencyCode => "currency.currencyCode"
    case ShowCurrency => "currency.showCurrency"
    case SupportCropCenter => "media.supportCropCenter"
  }

  /** Distinct settings have distinct property names, so a configuration object and a `PartialConfig` carry the same entries. */
  lemma KeyNamesDistinct(a: ConfigKey, b: ConfigKey)
    requires KeyName(a) == KeyName(b)
    ensures a == b
  {
  }

  /** Some of the settings. A key present with the value `null` or `undefined` is still present. */
  type PartialConfig = map<ConfigKey, Value>

  /** `defaultConfig`: five text-area rows, no currency code, the currency hidden, no crop-centre support. */
  function DefaultConfig(key: ConfigKey): Value {
    match key
    case NumRows => Num(5)
    case CurrencyCode => Null
    case ShowCurrency => Bool(false)
    case SupportCropCenter => Bool(false)
  }

  /** `getConfigValue`: the configuration's own entry whenever it has the key, the default otherwise. */
  function GetConfigValue(config: Option<PartialConfig>, key: ConfigKey): (v: Value)
    ensures config.Some? && key in config.value ==> v == config.value[key]
    ensures config.None? || key !in config.value ==> v == DefaultConfig(key)
  {
    if config.Some? && key in config.value then config.value[key] else DefaultConfig(key)
  }

  /** The value `getConfigRef` computes: a prop that is neither null nor undefined wins over the configuration. */
  function GetConfigRef(key: ConfigKey, prop: Option<Value>, config: Option<PartialConfig>): (v: Value)
    ensures prop.Some? && !IsNullish(prop.value) ==> v == prop.value
    ensures prop.None? || IsNullish(prop.value) ==> v == GetConfigValue(config, key)
  {
    if prop.Some? && !IsNullish(prop.value) then prop.value else GetConfigValue(config, key)
  }

  /** Every default has the type its setting declares. */
  lemma DefaultsTyped()
    ensures GetConfigValue(None, NumRows).Num? && GetConfigValue(None, NumRows).n == 5
    ensures GetConfigValue(None, CurrencyCode).Null?
    ensures GetConfigValue(None, ShowCurrency) == Bool(false)
    ensures GetConfigValue(None, SupportCropCenter) == Bool(false)
  {
  }

  /**
    Where the value of a setting comes from: the prop when it is set, else the configuration's
    entry when it has one, else the default; a present entry wins even when it is null.
   */
  lemma ConfigRefSources(key: ConfigKey, prop: Option<Value>, config: Option<PartialConfig>)
    ensures var v := GetConfigRef(key, prop, config);
      || (prop.Some? && v == prop.value && !IsNullish(v))
      || (config.Some? && key in config.value && v == config.value[key])
      || ((config.None? || key !in config.value) && v == DefaultConfig(key))
    ensures config.Some? && key in config.value && config.value[key] == Null && (prop.None? || IsNullish(prop.value))
      ==> GetConfigRef(key, prop, config) == Null
  {
  }
}
