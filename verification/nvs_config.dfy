/** The non-volatile configuration store as the firmware sees it: a set of
    keys and the writes made to them. The store itself is not modelled;
    operations that change configuration return the writes they make, in
    order. */
module NvsConfig {
  import opened Base

  /** The configuration keys the modelled code writes, named after their
      `NVS_CONFIG_*` macros. */
  datatype Key =
    | WIFI_SSID | WIFI_PASS | HOSTNAME
    | STRATUM_URL | STRATUM_PORT | STRATUM_USER | STRATUM_PASS
    | FALLBACK_STRATUM_URL | FALLBACK_STRATUM_PORT | FALLBACK_STRATUM_USER | FALLBACK_STRATUM_PASS
    | ASIC_FREQ | ASIC_VOLTAGE | AUTO_FAN_SPEED | FAN_SPEED
    | FLIP_SCREEN | INVERT_SCREEN | INVERT_FAN_POLARITY | OVERHEAT_MODE | AUTOTUNE_FLAG
    | THEME_NAME

  /** The name each key is stored under. */
  function KeyName(k: Key): string {
    match k
    case WIFI_SSID => "wifissid"
    case WIFI_PASS => "wifipass"
    case HOSTNAME => "hostname"
    case STRATUM_URL => "stratumurl"
    case STRATUM_PORT => "stratumport"
    case STRATUM_USER => "stratumuser"
    case STRATUM_PASS => "stratumpass"
    case FALLBACK_STRATUM_URL => "fbstratumurl"
    case FALLBACK_STRATUM_PORT => "fbstratumport"
    case FALLBACK_STRATUM_USER => "fbstratumuser"
    case FALLBACK_STRATUM_PASS => "fbstratumpass"
    case ASIC_FREQ => "asicfrequency"
    case ASIC_VOLTAGE => "asicvoltage"
    case AUTO_FAN_SPEED => "autofanspeed"
    case FAN_SPEED => "fanspeed"
    case FLIP_SCREEN => "flipscreen"
    case INVERT_SCREEN => "invertscreen"
    case INVERT_FAN_POLARITY => "invertfanpol"
    case OVERHEAT_MODE => "overheat_mode"
    case AUTOTUNE_FLAG => "autotune"
    case THEME_NAME => "themename"
  }

  /** One call of `nvs_config_set_string` or `nvs_config_set_u16`. String
      values are kept as the bytes handed over. */
  datatype ConfigWrite =
    | SetString(key: Key, text: seq<byte>)
    | SetU16(key: Key, value: u16)
}
