/** What the handlers of the attribute protocol share: opcodes, error codes and the error response. */
module AttPdu {
  import opened Bytes

  const ERROR_RESPONSE: Byte := 0x01
  const FIND_INFORMATION_RESPONSE: Byte := 0x05
  const READ_BLOB_REQUEST: Byte := 0x0c
  const READ_BLOB_RESPONSE: Byte := 0x0d
  const WRITE_RESPONSE: Byte := 0x13
  const PREPARE_RESPONSE: Byte := 0x17
  const EXECUTE_RESPONSE: Byte := 0x19

  const INVALID_HANDLE: Byte := 0x01
  const READ_NOT_PERMITTED: Byte := 0x02
  const WRITE_NOT_PERMITTED: Byte := 0x03
  const INVALID_PDU: Byte := 0x04
  const INSUFFICIENT_AUTHENTICATION: Byte := 0x05
  const INVALID_OFFSET: Byte := 0x07
  const PREPARE_QUEUE_FULL: Byte := 0x09
  const ATTRIBUTE_NOT_FOUND: Byte := 0x0a
  const INVALID_LENGTH: Byte := 0x0d
  const INSUFFICIENT_ENCRYPTION: Byte := 0x0f

  const DEFAULT_MTU := 23

  /** Of a link: whether it is encrypted, and whether the peers share a key. */
  datatype Security = Security(encrypted: bool, hasKey: bool)

  /** An attribute that requires encryption is only accessible over an encrypted link. */
  predicate Allows(s: Security, requiresEncryption: bool) {
    requiresEncryption ==> s.encrypted
  }

  function SecurityError(s: Security): Byte {
    if s.hasKey then INSUFFICIENT_ENCRYPTION else INSUFFICIENT_AUTHENTICATION
  }

  type Response = seq<Byte>

  function Error(opcode: Byte, code: Byte, handle: Word16): Response {
    [ERROR_RESPONSE, opcode] + ToBytes(handle) + [code]
  }

  /** What a client reads in an error response: the opcode of its request, a handle with the low byte first, and the error. */
  ghost predicate IsError(response: Response, opcode: Byte, handle: nat, code: Byte) {
    |response| == 5 && response[0] == 0x01 && response[1] == opcode && FromBytes(response[2], response[3]) == handle && response[4] == code
  }

  lemma ErrorIs(opcode: Byte, code: Byte, handle: Word16)
    ensures IsError(Error(opcode, code, handle), opcode, handle, code)
  {
    BytesRoundTrip(handle);
  }

  method ErrorResponse(opcode: Byte, code: Byte, handle: Word16, output: array<Byte>) returns (size: nat)
    modifies output
    ensures output.Length >= 5 ==> size == 5 && output[..5] == Error(opcode, code, handle)
    ensures output.Length < 5 ==> size == 0
  {
    if output.Length >= 5 {
      output[0], output[1] := ERROR_RESPONSE, opcode;
      output[2], output[3] := handle % 256, handle / 256;
      output[4] := code;
      size := 5;
    } else {
      size := 0;
    }
  }
}
