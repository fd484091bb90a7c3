/**
 * obis-observer uplink command 0x2b `UpdateImageWriteResponse`: the answer
 * to one image-write request, a two-byte body `[requestId, resultCode]`.
 * The header is added by the obis-observer `Command.toBytes`, which is not
 * part of this model: `ToBytes` stops at the id and body handed to it.
 */
module ObisUpdateImageWriteResponse {
  import opened Wrappers
  import opened Bytes
  import opened Buffer

  const COMMAND_ID: byte := 0x2b
  /** Size of a request id in the obis-observer command buffer. */
  const REQUEST_ID_SIZE: nat := 1
  const COMMAND_SIZE: nat := 1 + REQUEST_ID_SIZE

  datatype Parameters = Parameters(requestId: byte, resultCode: byte)

  /** A command instance; the constructor fixes its size to `COMMAND_SIZE`. */
  datatype UpdateImageWriteResponse = UpdateImageWriteResponse(parameters: Parameters) {
    /** The body size: one result-code byte after the request id. */
    function Size(): (n: nat)
      ensures n == 1 + REQUEST_ID_SIZE
    {
      COMMAND_SIZE
    }
  }

  /** The arguments of the call `Command.toBytes(id, body)`. */
  datatype HeaderArguments = HeaderArguments(id: byte, body: seq<byte>)

  /**
   * What `fromBytes` computes: the first two body bytes, in order. There is
   * no length check; a shorter body overruns the buffer and later bytes are
   * ignored.
   */
  function Decode(body: seq<byte>): (r: Result<UpdateImageWriteResponse>)
    ensures r.Ok? <==> |body| >= COMMAND_SIZE
    ensures r.Err? ==> r.error == BufferOverrun
    ensures r.Ok? ==> r.value.parameters.requestId == body[0] && r.value.parameters.resultCode == body[1]
  {
    if |body| < COMMAND_SIZE then Err(BufferOverrun)
    else Ok(UpdateImageWriteResponse(Parameters(body[0], body[1])))
  }

  /** What `toBytes` hands to `Command.toBytes`: id 0x2b and the two-byte body. */
  function Encode(c: UpdateImageWriteResponse): (r: HeaderArguments)
    ensures r.id == COMMAND_ID && |r.body| == c.Size() == COMMAND_SIZE
    ensures r.body[0] == c.parameters.requestId && r.body[1] == c.parameters.resultCode
  {
    HeaderArguments(COMMAND_ID, [c.parameters.requestId, c.parameters.resultCode])
  }

  /** `fromBytes`: two `getUint8` reads through a buffer over the body. */
  method FromBytes(data: seq<byte>) returns (r: Result<UpdateImageWriteResponse>)
    ensures r == Decode(data)
  {
    var buffer := new CommandBuffer.Wrap(data);
    var requestId :- buffer.GetUint8();
    var resultCode :- buffer.GetUint8();
    r := Ok(UpdateImageWriteResponse(Parameters(requestId, resultCode)));
  }

  /** `toBytes`: two `setUint8` writes into a `COMMAND_SIZE` buffer. */
  method ToBytes(c: UpdateImageWriteResponse) returns (r: HeaderArguments)
    ensures r == Encode(c)
  {
    var buffer := new CommandBuffer.Allocate(COMMAND_SIZE);
    var _ := buffer.SetUint8(c.parameters.requestId);
    var _ := buffer.SetUint8(c.parameters.resultCode);
    r := HeaderArguments(COMMAND_ID, buffer.Contents());
  }

  /** Decoding the body handed to `Command.toBytes` gives the command back. */
  lemma DecodeEncode(c: UpdateImageWriteResponse)
    ensures Decode(Encode(c).body) == Ok(c)
  {
  }

  /** Re-encoding a decoded two-byte body gives the same body. */
  lemma EncodeDecode(body: seq<byte>)
    requires |body| == COMMAND_SIZE
    ensures Decode(body).Ok? && Encode(Decode(body).value).body == body
  {
  }

  /** Bytes after the second do not change what is decoded. */
  lemma DecodeIgnoresTrailing(body: seq<byte>, extra: seq<byte>)
    requires |body| >= COMMAND_SIZE
    ensures Decode(body + extra) == Decode(body)
  {
  }

  /** The worked example: body `21 00` is request 33 with result code 0 (OK). */
  lemma Example()
    ensures Decode([0x21, 0x00]) == Ok(UpdateImageWriteResponse(Parameters(33, 0)))
    ensures Encode(UpdateImageWriteResponse(Parameters(33, 0))) == HeaderArguments(0x2b, [0x21, 0x00])
  {
  }
}
