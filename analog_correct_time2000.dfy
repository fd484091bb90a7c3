/**
 * analog uplink command 0x0c `correctTime2000`: the device's answer to a
 * time correction, a one-byte `status` body. `fromBytes` checks the body
 * length first and that the buffer is exhausted after reading.
 */
module AnalogCorrectTime2000 {
  import opened Wrappers
  import opened Bytes
  import opened Buffer

  const ID: byte := 0x0c
  const HEADER_SIZE: nat := 2
  const COMMAND_BODY_SIZE: nat := 1

  datatype Parameters = Parameters(status: byte)

  /**
   * The analog `command.toBytes(id, body)` for a one-byte id, as the command
   * examples show it: `[id, body length]`, then the body.
   */
  function CommandToBytes(id: byte, body: seq<byte>): (r: seq<byte>)
    requires |body| < 0x100
    ensures |r| == HEADER_SIZE + |body|
    ensures r[0] == id && r[1] == |body| && r[HEADER_SIZE ..] == body
  {
    [id, |body|] + body
  }

  /** What `fromBytes` computes: the status, or an error for any other length. */
  function Decode(data: seq<byte>): (r: Result<Parameters>)
    ensures r.Ok? <==> |data| == COMMAND_BODY_SIZE
    ensures r.Err? ==> r.error == WrongBufferSize(|data|)
    ensures r.Ok? ==> r.value.status == data[0]
  {
    if |data| != COMMAND_BODY_SIZE then Err(WrongBufferSize(|data|)) else Ok(Parameters(data[0]))
  }

  /** What `toBytes` returns: `[0x0c, 0x01, status]`. */
  function Encode(p: Parameters): (r: seq<byte>)
    ensures r == [ID, COMMAND_BODY_SIZE, p.status]
    ensures |r| == HEADER_SIZE + COMMAND_BODY_SIZE
  {
    CommandToBytes(ID, [p.status])
  }

  /**
   * `fromBytes`: length check, one `getUint8`, then the exhaustion check.
   * After one read of a one-byte buffer it is empty, so the "not empty"
   * error is never returned.
   */
  method FromBytes(data: seq<byte>) returns (r: Result<Parameters>)
    ensures r == Decode(data)
    ensures r != Err(BufferNotEmpty)
  {
    if |data| != COMMAND_BODY_SIZE {
      return Err(WrongBufferSize(|data|));
    }
    var buffer := new CommandBuffer.Wrap(data);
    var status := buffer.GetUint8();
    // The length check leaves one byte to read, so the read cannot overrun.
    assert status.Ok?;
    if !buffer.IsEmpty() {
      return Err(BufferNotEmpty);
    }
    r := Ok(Parameters(status.value));
  }

  /** `toBytes`: the status written into a one-byte buffer, then the header. */
  method ToBytes(p: Parameters) returns (r: seq<byte>)
    ensures r == Encode(p)
  {
    var buffer := new CommandBuffer.Allocate(COMMAND_BODY_SIZE);
    var _ := buffer.SetUint8(p.status);
    r := CommandToBytes(ID, buffer.Contents());
  }

  /** Decoding the body of an encoded command gives the parameters back. */
  lemma DecodeEncode(p: Parameters)
    ensures Decode(Encode(p)[HEADER_SIZE ..]) == Ok(p)
  {
  }

  /** Re-encoding an accepted body gives the same body. */
  lemma EncodeDecode(body: seq<byte>)
    requires Decode(body).Ok?
    ensures Encode(Decode(body).value)[HEADER_SIZE ..] == body
  {
  }

  /** The worked examples: status 0 (failure) and status 1 (success). */
  lemma Examples()
    ensures Encode(Parameters(0)) == [0x0c, 0x01, 0x00]
    ensures Encode(Parameters(1)) == [0x0c, 0x01, 0x01]
    ensures Decode([0x00]) == Ok(Parameters(0))
    ensures Decode([0x01]) == Ok(Parameters(1))
  {
  }
}
