/**
 * mtx uplink command 0x0f `GetEnergyCurrentResponse`: current energy for the
 * four tariffs T1-T4, a fixed 16-byte body of big-endian uint32 readings.
 * Unlike most commands, `toBytes` writes its own two-byte header
 * `[id, size]` into the same buffer as the body.
 */
module MtxGetEnergyCurrentResponse {
  import opened Wrappers
  import opened Bytes
  import opened Buffer

  const COMMAND_ID: byte := 0x0f
  const COMMAND_SIZE: nat := 16
  /** Header length of an mtx command: one id byte and one size byte. */
  const COMMAND_HEADER_SIZE: nat := 2
  /** The declared maximum body size. */
  const MAX_SIZE: nat := COMMAND_SIZE

  datatype Parameters = Parameters(energies: Energies)

  /** A command instance; the constructor fixes its size to `COMMAND_SIZE`. */
  datatype GetEnergyCurrentResponse = GetEnergyCurrentResponse(parameters: Parameters) {
    /** The body size: the declared maximum, and small enough for the size byte. */
    function Size(): (n: nat)
      ensures n == MAX_SIZE && n < 0x100
    {
      COMMAND_SIZE
    }
  }

  /**
   * What `fromBytes` computes: the first 16 body bytes read as four
   * big-endian tariffs. There is no length check of its own; a shorter body
   * overruns the buffer and later bytes are never looked at.
   */
  function Decode(body: seq<byte>): (r: Result<GetEnergyCurrentResponse>)
    ensures r.Ok? <==> |body| >= COMMAND_SIZE
    ensures r.Err? ==> r.error == BufferOverrun
    ensures r.Ok? ==> forall k :: 0 <= k < TARIFF_COUNT ==>
      r.value.parameters.energies[k] == BytesToUint32(body[4 * k .. 4 * k + 4])
  {
    if |body| < COMMAND_SIZE then Err(BufferOverrun)
    else Ok(GetEnergyCurrentResponse(Parameters(BytesToEnergies(body[.. COMMAND_SIZE]))))
  }

  /** What `toBytes` returns: the header `[0x0f, 0x10]`, then the energies. */
  function Encode(c: GetEnergyCurrentResponse): (r: seq<byte>)
    ensures |r| == COMMAND_HEADER_SIZE + COMMAND_SIZE
    ensures |r| - COMMAND_HEADER_SIZE == MAX_SIZE
    ensures r[0] == COMMAND_ID && r[1] == COMMAND_SIZE
    ensures forall k :: 0 <= k < TARIFF_COUNT ==>
      r[COMMAND_HEADER_SIZE + 4 * k .. COMMAND_HEADER_SIZE + 4 * k + 4] == Uint32ToBytes(c.parameters.energies[k])
  {
    var r := [COMMAND_ID, c.Size() as byte] + EnergiesToBytes(c.parameters.energies);
    forall k | 0 <= k < TARIFF_COUNT
      ensures r[COMMAND_HEADER_SIZE + 4 * k .. COMMAND_HEADER_SIZE + 4 * k + 4] == Uint32ToBytes(c.parameters.energies[k])
    {
      EnergiesLayout(c.parameters.energies, k);
    }
    r
  }

  /** `fromBytes`: reads the energies through a buffer over the body. */
  method FromBytes(data: seq<byte>) returns (r: Result<GetEnergyCurrentResponse>)
    ensures r == Decode(data)
  {
    var buffer := new CommandBuffer.Wrap(data);
    var energies :- buffer.GetEnergies();
    assert data[.. COMMAND_SIZE] == buffer.data[0 .. ENERGIES_SIZE];
    r := Ok(GetEnergyCurrentResponse(Parameters(energies)));
  }

  /** `toBytes`: header and body written in turn into an 18-byte buffer. */
  method ToBytes(c: GetEnergyCurrentResponse) returns (r: seq<byte>)
    ensures r == Encode(c)
  {
    var buffer := new CommandBuffer.Allocate(COMMAND_HEADER_SIZE + c.Size());
    var _ := buffer.SetUint8(COMMAND_ID);
    var _ := buffer.SetUint8(c.Size() as byte);
    var _ := buffer.SetEnergies(c.parameters.energies);
    r := buffer.Contents();
  }

  /** Decoding the body of an encoded command gives the command back. */
  lemma DecodeEncode(c: GetEnergyCurrentResponse)
    ensures Decode(Encode(c)[COMMAND_HEADER_SIZE ..]) == Ok(c)
  {
    var e := c.parameters.energies;
    assert Encode(c)[COMMAND_HEADER_SIZE ..][.. COMMAND_SIZE] == EnergiesToBytes(e);
    EnergiesRoundTrip(e);
  }

  /** Re-encoding a decoded 16-byte body gives the same body. */
  lemma EncodeDecode(body: seq<byte>)
    requires |body| == COMMAND_SIZE
    ensures Decode(body).Ok? && Encode(Decode(body).value)[COMMAND_HEADER_SIZE ..] == body
  {
    assert body[.. COMMAND_SIZE] == body;
    EnergyBytesRoundTrip(body);
  }

  /** Bytes after the 16th do not change what is decoded. */
  lemma DecodeIgnoresTrailing(body: seq<byte>, extra: seq<byte>)
    requires |body| >= COMMAND_SIZE
    ensures Decode(body + extra) == Decode(body)
  {
    assert (body + extra)[.. COMMAND_SIZE] == body[.. COMMAND_SIZE];
  }

  /** The worked example, encoding: the energies give the header `0f 10` and
      the body `02 66 f2 ae 00 32 e0 64 00 00 09 1d 00 20 bd 57`. */
  lemma ExampleEncode()
    ensures Encode(GetEnergyCurrentResponse(Parameters([40301230, 3334244, 2333, 2145623])))
         == [0x0f, 0x10, 0x02, 0x66, 0xf2, 0xae, 0x00, 0x32, 0xe0, 0x64, 0x00, 0x00, 0x09, 0x1d, 0x00, 0x20, 0xbd, 0x57]
  {
  }

  /** The worked example, decoding: that body gives the four energies back. */
  lemma ExampleDecode()
    ensures Decode([0x02, 0x66, 0xf2, 0xae, 0x00, 0x32, 0xe0, 0x64, 0x00, 0x00, 0x09, 0x1d, 0x00, 0x20, 0xbd, 0x57])
         == Ok(GetEnergyCurrentResponse(Parameters([40301230, 3334244, 2333, 2145623])))
  {
    var c := GetEnergyCurrentResponse(Parameters([40301230, 3334244, 2333, 2145623]));
    ExampleEncode();
    assert Encode(c)[COMMAND_HEADER_SIZE ..]
        == [0x02, 0x66, 0xf2, 0xae, 0x00, 0x32, 0xe0, 0x64, 0x00, 0x00, 0x09, 0x1d, 0x00, 0x20, 0xbd, 0x57];
    DecodeEncode(c);
  }
}
