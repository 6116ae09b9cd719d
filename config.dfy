/**
 * Configuration validation helpers: a missing configuration value or an
 * unknown room is only logged when the bot runs on the local shell adapter,
 * and stops it with an Error on any other adapter.
 *
 * The environment is a map; the room helpers of the chat adapter
 * (`isRoomNameValid`, `getRoomInfoFromIdOrName`) are function parameters.
 */
module Config {
  import opened Wrappers
  import opened JsString

  const SHELL := "shell"
  const PRODUCTION_WARNING := " This will break the build in production."

  /** What a helper did: returned a value after logging some warnings, or threw an Error with a message. */
  datatype Reported<T> = Returned(value: T, warnings: seq<string>) | Threw(message: string)

  /** The adapter name is "shell" once lowered. */
  predicate IsShell(adapterName: string) {
    ToLower(adapterName) == SHELL
  }

  /** Every spelling of "shell", in any mix of cases, is the shell adapter; nothing longer or shorter is. */
  lemma IsShellIgnoresCase(adapterName: string)
    ensures IsShell(adapterName) <==>
              |adapterName| == 5 && forall i :: 0 <= i < 5 ==> LowerChar(adapterName[i]) == SHELL[i]
  {
    if |adapterName| == 5 && forall i :: 0 <= i < 5 ==> LowerChar(adapterName[i]) == SHELL[i] {
      assert ToLower(adapterName) == SHELL;
    }
  }

  /** `logOrThrow`: on the shell adapter a warning and `""`, elsewhere an Error carrying the message. */
  function LogOrThrow(adapterName: string, errorMessage: string): (r: Reported<string>)
    ensures r.Returned? <==> IsShell(adapterName)
    ensures r.Returned? ==> r.value == "" && r.warnings == [errorMessage + PRODUCTION_WARNING]
    ensures r.Threw? ==> r.message == errorMessage
  {
    if IsShell(adapterName) then Returned("", [errorMessage + PRODUCTION_WARNING])
    else Threw(errorMessage)
  }

  /** The value is set and not empty (JavaScript truthiness of a string). */
  predicate IsSet(env: map<string, string>, key: string) {
    key in env && env[key] != ""
  }

  /** `process.env[key]`: the raw value, absent when the variable is not defined. */
  function EnvValue(env: map<string, string>, key: string): Option<string> {
    if key in env then Some(env[key]) else None
  }

  /**
   * `fetchConfigOrReportIssue`: a set value is returned as it is; a missing
   * or empty one is reported through `LogOrThrow`, whose `""` is dropped in
   * favour of the raw value.
   */
  function FetchConfigOrReportIssue(adapterName: string, env: map<string, string>, configKey: string): (r: Reported<Option<string>>)
    ensures IsSet(env, configKey) ==> r == Returned(Some(env[configKey]), [])
    ensures !IsSet(env, configKey) && !IsShell(adapterName) ==>
              r == Threw("Could not get necessary value for configKey: " + configKey + ".")
    ensures !IsSet(env, configKey) && IsShell(adapterName) ==>
              r.Returned? && r.value == EnvValue(env, configKey) && |r.warnings| == 1
  {
    if !IsSet(env, configKey) then
      match LogOrThrow(adapterName, "Could not get necessary value for configKey: " + configKey + ".")
      case Threw(message) => Threw(message)
      case Returned(_, warnings) => Returned(EnvValue(env, configKey), warnings)
    else Returned(EnvValue(env, configKey), [])
  }

  /** Outside the shell adapter, a configuration value that comes back is always set and not empty. */
  lemma FetchConfigReturnsSetValue(adapterName: string, env: map<string, string>, configKey: string)
    requires !IsShell(adapterName)
    requires FetchConfigOrReportIssue(adapterName, env, configKey).Returned?
    ensures FetchConfigOrReportIssue(adapterName, env, configKey).value == Some(env[configKey])
    ensures env[configKey] != ""
  {
  }

  /**
   * `fetchRoomInfoOrReportIssue`: an invalid room name is reported through
   * `LogOrThrow`; unless that throws, the lookup result is returned, valid
   * name or not.
   */
  function FetchRoomInfoOrReportIssue<Room>(
    adapterName: string, roomName: string,
    isRoomNameValid: string -> bool, roomInfo: string -> Room): (r: Reported<Room>)
    ensures isRoomNameValid(roomName) ==> r == Returned(roomInfo(roomName), [])
    ensures !isRoomNameValid(roomName) && !IsShell(adapterName) ==>
              r == Threw("Could not get flow object for: " + roomName + ".")
    ensures !isRoomNameValid(roomName) && IsShell(adapterName) ==>
              r.Returned? && r.value == roomInfo(roomName) && |r.warnings| == 1
  {
    if !isRoomNameValid(roomName) then
      match LogOrThrow(adapterName, "Could not get flow object for: " + roomName + ".")
      case Threw(message) => Threw(message)
      case Returned(_, warnings) => Returned(roomInfo(roomName), warnings)
    else Returned(roomInfo(roomName), [])
  }

  /** Outside the shell adapter, a room that comes back was looked up under a valid name. */
  lemma FetchRoomReturnsValidRoom<Room>(
    adapterName: string, roomName: string,
    isRoomNameValid: string -> bool, roomInfo: string -> Room)
    requires !IsShell(adapterName)
    requires FetchRoomInfoOrReportIssue(adapterName, roomName, isRoomNameValid, roomInfo).Returned?
    ensures isRoomNameValid(roomName)
  {
  }
}
