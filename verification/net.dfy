/** The network layer's view of a peer, as far as the message helpers use it. */
module Net {

  /** `inet.Connectedness`. The underlying Go type is an integer, so it can hold values
      other than the four named states. `UnknownConnectedness` stands for one such value;
      its `code` is an opaque tag telling such values apart, not the integer itself, so
      every `UnknownConnectedness` is distinct from the four named states. */
  datatype Connectedness =
    | NotConnected
    | Connected
    | CanConnect
    | CannotConnect
    | UnknownConnectedness(code: int)
  {
    /** True for the four named states. */
    predicate Known() {
      !UnknownConnectedness?
    }
  }
}
