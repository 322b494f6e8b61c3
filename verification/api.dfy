/** The controller's remote API as the driver sees it: abstract commands and
    the errors a call can fail with. The HTTP client itself is not modelled. */
module Api {
  import opened Js

  /** A call that changes the controller's light state. */
  datatype Command =
    | TurnOn
    | TurnOff
    | SetBrightness(level: Number)
    | SetHue(level: Number)
    | SetSaturation(level: Number)
    | SetTemperature(level: Number)

  /** A rejected call; `code` is the Node.js error code (empty when absent). */
  datatype ApiError = ApiError(code: string)

  const ConnectionRefused: string := "ECONNREFUSED"

  /** Where a controller is reached and with which access token. */
  datatype Connection = Connection(host: string, port: int, token: JsValue)
}
