/** The error codes of the library that the modelled functions return. */
module Errors {
  datatype Error =
    | NONE
    | INVALID_PACKET
    | UNKNOWN_MESSAGE
    | UNKNOWN_SNAP_ITEM
    | INVALID_BOOL
    | STR_UNEXPECTED_EOF
    | EMPTY_BUFFER
    | END_OF_BUFFER
    | BUFFER_FULL
    | OUTPUT_VAR_TOO_SMALL
    | REMAINING_BYTES_IN_BUFFER
    | MISSING_DDNET_SECURITY_TOKEN
    | HUFFMAN_NODE_NULL
    | HUFFMAN_TABLE_LOOKUP_INSUFFICIENT_BITS
    | HUFFMAN_NODE_LOOKUP_INSUFFICIENT_BITS
    | ACK_OUT_OF_BOUNDS
}
