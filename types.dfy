/** Machine-level types shared by the address-space model. */
module Types {

  /** 2^64: the modulus of `reg_t` and `size_t` arithmetic. */
  const U64_LIMIT: int := 0x1_0000_0000_0000_0000

  /** `reg_t` and `size_t`: unsigned 64-bit integers. */
  type U64 = x: int | 0 <= x < 0x1_0000_0000_0000_0000

  /** `uint8_t` / `char` bytes of guest memory. */
  type Byte = b: int | 0 <= b < 256

  datatype Option<+T> = None | Some(value: T)

  datatype Result<+T, +E> = Ok(value: T) | Err(error: E)

  /** The exceptions that the core throws at setup time. */
  datatype SetupError =
    | InvalidMemorySize                  // mem_t constructor
    | PluginAlreadyRegistered(name: string)  // register_mmio_plugin
    | UnknownPlugin(name: string)        // mmio_plugin_map().at(name)

  /** `a + b` computed in `reg_t`, which wraps around at 2^64. */
  function WrapAdd(a: U64, b: U64): (r: U64)
    ensures r == (a + b) % U64_LIMIT
    ensures r < a <==> a + b >= U64_LIMIT
  {
    if a + b < U64_LIMIT then a + b else a + b - U64_LIMIT
  }
}
