/** The error values of the PNG library (png/src/error.rs). The wrapped I/O and UTF-8
    errors carry no payload here; `ChunkTypeParseError` is one parse-failure value. */
module Errors {

  datatype PngError =
    | InvalidBitDepth
    | InvalidColorType
    | InvalidCompressionMethod
    | InvalidFilterMethod
    | InvalidFilterType
    | InvalidHeader
    | InvalidInterlaceMethod
    | ChunkCrcMismatch
    | ChunkNotFoundError
    | ChunkParseError
    | ChunksIsEmptyError
    | ChunkTypeParseError
    | IndexOutOfBounds
    | IoError
    | StringFromUtf8Error
}
