/**
 * mtx downlink command 0x0f `GetEnergyCurrent`: a request for the current
 * energy of the four tariffs, with one optional `energyType` byte. The
 * optional byte is tested for JavaScript truthiness, so an `energyType` of 0
 * is treated exactly like an absent one when encoding.
 */
module MtxGetEnergyCurrent {
  import opened Wrappers
  import opened Bytes

  const COMMAND_ID: byte := 0x0f
  const MIN_COMMAND_SIZE: nat := 0
  const MAX_COMMAND_SIZE: nat := 1

  /** `energyType` is optional; its domain is modelled as a byte. */
  datatype Parameters = Parameters(energyType: Option<byte>)

  /** JavaScript truthiness of an optional number: present and non-zero. */
  predicate Truthy(t: Option<byte>) {
    t.Some? && t.value != 0
  }

  /** A command instance; its size is fixed by the constructor's rule. */
  datatype GetEnergyCurrent = GetEnergyCurrent(parameters: Parameters) {
    /** One body byte exactly when `energyType` is truthy, none otherwise. */
    function Size(): (n: nat)
      ensures n <= MAX_COMMAND_SIZE
      ensures n == 1 <==> parameters.energyType.Some? && parameters.energyType.value != 0
    {
      if Truthy(parameters.energyType) then MAX_COMMAND_SIZE else MIN_COMMAND_SIZE
    }
  }

  /** `fromBytes`: a one-byte body is the `energyType`; any other length means none. */
  function FromBytes(data: seq<byte>): (c: GetEnergyCurrent)
    ensures |data| == 1 ==> c.parameters.energyType == Some(data[0])
    ensures |data| != 1 ==> c.parameters.energyType.None?
  {
    var energyType := if |data| == MAX_COMMAND_SIZE then Some(data[0]) else None;
    GetEnergyCurrent(Parameters(energyType))
  }

  /** What `toBytes` returns: `[0x0f, size]`, then `energyType` when truthy. */
  function Encode(c: GetEnergyCurrent): (r: seq<byte>)
    ensures |r| == 2 + c.Size() && r[0] == COMMAND_ID && r[1] == |r| - 2
    ensures Truthy(c.parameters.energyType) <==> |r| == 3
    ensures |r| == 3 ==> r[2] == c.parameters.energyType.value
  {
    [COMMAND_ID, c.Size() as byte] + if Truthy(c.parameters.energyType) then [c.parameters.energyType.value] else []
  }

  /** `toBytes`: starts from the header and pushes the optional byte. */
  method ToBytes(c: GetEnergyCurrent) returns (bytes: seq<byte>)
    ensures bytes == Encode(c)
  {
    bytes := [COMMAND_ID, c.Size() as byte];
    var energyType := c.parameters.energyType;
    if energyType.Some? && energyType.value != 0 {
      bytes := bytes + [energyType.value];
    }
  }

  /** Round trip from the parameters: it holds exactly when `energyType` is not 0. */
  lemma DecodeEncode(c: GetEnergyCurrent)
    ensures FromBytes(Encode(c)[2 ..]) == c <==> c.parameters.energyType != Some(0)
  {
    if c.parameters.energyType == Some(0) {
      assert Encode(c)[2 ..] == [];
    } else if c.parameters.energyType.Some? {
      assert Encode(c)[2 ..] == [c.parameters.energyType.value];
    } else {
      assert Encode(c)[2 ..] == [];
    }
  }

  /** Round trip from the body: it holds exactly for the empty body and a single non-zero byte. */
  lemma EncodeDecode(body: seq<byte>)
    ensures Encode(FromBytes(body))[2 ..] == body <==> body == [] || (|body| == 1 && body[0] != 0)
  {
    var r := Encode(FromBytes(body));
    if |body| == 1 && body[0] != 0 {
      assert r[2 ..] == [body[0]] == body;
    } else if |body| == 1 {
      assert r[2 ..] == [] != body;
    } else {
      assert r[2 ..] == [];
    }
  }

  /** The zero `energyType` is lost: `fromBytes([0x00])` gives 0, which re-encodes to `[0x0f, 0x00]`. */
  lemma ZeroEnergyTypeLost()
    ensures FromBytes([0x00]).parameters.energyType == Some(0)
    ensures Encode(FromBytes([0x00])) == [0x0f, 0x00]
    ensures FromBytes(Encode(FromBytes([0x00]))[2 ..]).parameters.energyType.None?
  {
  }

  /** The worked examples: no `energyType` gives `0f 00`, `energyType` 1 gives `0f 01 01`. */
  lemma Examples()
    ensures Encode(GetEnergyCurrent(Parameters(None))) == [0x0f, 0x00]
    ensures Encode(GetEnergyCurrent(Parameters(Some(1)))) == [0x0f, 0x01, 0x01]
    ensures FromBytes([]) == GetEnergyCurrent(Parameters(None))
    ensures FromBytes([0x01]) == GetEnergyCurrent(Parameters(Some(1)))
  {
  }
}
