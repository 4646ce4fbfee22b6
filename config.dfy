/** The compile-time configuration the server is built with. The header
    that defines these constants is not part of this model, so they are
    parameters of every operation that uses them. */
module ServerConfig {

  datatype Config = Config(
    bufferSize: nat,   // BUFFER_SIZE: receive buffer and file read chunk
    smallBuffer: nat,  // SMALL_BUFFER: request tokens, paths, headers, ping body
    rootDir: string    // ROOT_DIR: the directory every GET is served from
  )

  /** What the fixed-size buffers demand of the configuration: the receive
      buffer holds at least the terminating NUL, the path buffer is
      initialised with ROOT_DIR and its NUL, and the ping body buffer holds
      the 23-character pong reply and its NUL (what a smaller one does to
      the reply is `RequestHandler.PongOverRead`). */
  predicate Valid(cfg: Config) {
    cfg.bufferSize >= 1 && |cfg.rootDir| < cfg.smallBuffer && cfg.smallBuffer >= 24
  }
}
