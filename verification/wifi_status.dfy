/** The Wi-Fi status line `MINER_set_wifi_status` keeps for the UI: a short
    message per connection state and, while retrying, per disconnect reason,
    written with `snprintf` into a 20-byte field. */
module WifiStatus {
  import opened Base
  import opened Decimal

  /** `wifi_status_t`; `Unknown` stands for any other enum value. */
  datatype Status = Connecting | Connected | Retrying | Unknown(code: int)

  /** Size of the `wifi_status` field, NUL included. */
  const WIFI_STATUS_SIZE := 20

  /** ESP-IDF disconnect reason "no access point found". */
  const REASON_NO_AP_FOUND := 201
  /** The two reasons the firmware reports as a password error. */
  const REASON_PASSWORD_A := 15
  const REASON_PASSWORD_B := 205

  /** The text `snprintf` is asked to write, before the size bound; `None`
      for a status the function does not handle. */
  function Message(status: Status, retryCount: int32, reason: int32): Option<string> {
    match status
    case Connecting => Some("Connecting...")
    case Connected => Some("Connected!")
    case Retrying =>
      if reason == REASON_NO_AP_FOUND then Some("No AP found (" + IntToDec(retryCount) + ")")
      else if reason == REASON_PASSWORD_A || reason == REASON_PASSWORD_B then
        Some("Password error (" + IntToDec(retryCount) + ")")
      else Some("Error " + IntToDec(reason) + " (" + IntToDec(retryCount) + ")")
    case Unknown(_) => None
  }

  /** The field after the call: the message cut to 19 characters, or the
      previous text when the status is unknown. */
  function SetWifiStatus(current: string, status: Status, retryCount: int32, reason: int32): (shown: string)
    ensures status.Unknown? ==> shown == current
    ensures !status.Unknown? ==> |shown| < WIFI_STATUS_SIZE
  {
    match Message(status, retryCount, reason)
    case None => current
    case Some(text) => Prefix(text, WIFI_STATUS_SIZE - 1)
  }

  // ---------------------------------------------------------------------
  // What the line tells the reader

  /** The case a status line reports. */
  datatype Shown = ShowsConnecting | ShowsConnected | ShowsNoAp | ShowsPasswordError | ShowsError

  function ShownFor(status: Status, reason: int32): Option<Shown> {
    match status
    case Connecting => Some(ShowsConnecting)
    case Connected => Some(ShowsConnected)
    case Retrying =>
      if reason == REASON_NO_AP_FOUND then Some(ShowsNoAp)
      else if reason == REASON_PASSWORD_A || reason == REASON_PASSWORD_B then Some(ShowsPasswordError)
      else Some(ShowsError)
    case Unknown(_) => None
  }

  /** Reading the case back from the text: the first letter, and for the
      two "Connect" messages the eighth. */
  function ReadShown(text: string): Option<Shown> {
    if |text| == 0 then None
    else if text[0] == 'N' then Some(ShowsNoAp)
    else if text[0] == 'P' then Some(ShowsPasswordError)
    else if text[0] == 'E' then Some(ShowsError)
    else if text[0] == 'C' && |text| > 7 then
      (if text[7] == 'i' then Some(ShowsConnecting) else Some(ShowsConnected))
    else None
  }

  /** Whatever the counts, the 19 characters kept still say which case
      occurred. */
  lemma ShownReadBack(current: string, status: Status, retryCount: int32, reason: int32)
    requires !status.Unknown?
    ensures ReadShown(SetWifiStatus(current, status, retryCount, reason)) == ShownFor(status, reason)
  {
    var text := Message(status, retryCount, reason).value;
    var shown := SetWifiStatus(current, status, retryCount, reason);
    assert shown == Prefix(text, WIFI_STATUS_SIZE - 1);
    assert |text| >= 8;
    assert shown[0] == text[0] && shown[7] == text[7];
  }

  /** A retry count of up to two digits fits a password-error line whole;
      from 100 on the closing parenthesis is cut off. */
  lemma PasswordLineComplete(current: string, retryCount: int32, reason: int32)
    requires retryCount >= 0 && (reason == REASON_PASSWORD_A || reason == REASON_PASSWORD_B)
    ensures var shown := SetWifiStatus(current, Retrying, retryCount, reason);
      shown == "Password error (" + NatToDec(retryCount) + ")" <==> retryCount < 100
  {
    DecLength(retryCount, 2);
    assert Pow10(2) == 100;
    var text := "Password error (" + NatToDec(retryCount) + ")";
    assert |"Password error ("| == 16;
    if retryCount >= 100 {
      assert |text| > WIFI_STATUS_SIZE - 1;
    }
  }

  /** The no-AP line keeps retry counts of up to five digits whole. */
  lemma NoApLineComplete(current: string, retryCount: int32)
    requires 0 <= retryCount < 100000
    ensures SetWifiStatus(current, Retrying, retryCount, REASON_NO_AP_FOUND) == "No AP found (" + NatToDec(retryCount) + ")"
  {
    DecLength(retryCount, 5);
    assert Pow10(5) == 100000;
    assert |"No AP found ("| == 13;
  }

  /** The two connection messages are shown whole. */
  lemma ConnectionLines(current: string, retryCount: int32, reason: int32)
    ensures SetWifiStatus(current, Connecting, retryCount, reason) == "Connecting..."
    ensures SetWifiStatus(current, Connected, retryCount, reason) == "Connected!"
  {
  }
}
