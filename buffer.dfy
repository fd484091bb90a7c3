/**
 * A minimal cursor-based byte buffer: the part of `BinaryBuffer` and
 * `CommandBinaryBuffer` that the modelled commands use. The buffer owns a
 * fixed-size byte region and a cursor; every read or write advances the
 * cursor, and an access past the end fails instead of touching memory.
 */
module Buffer {
  import opened Wrappers
  import opened Bytes

  /** Number of tariffs (T1-T4) in an energy group. */
  const TARIFF_COUNT: nat := 4

  /** Size in bytes of one energy group: four big-endian uint32 values. */
  const ENERGIES_SIZE: nat := 4 * TARIFF_COUNT

  /** The readings of one energy group, tariffs T1-T4 in order. */
  type Energies = s: seq<uint32> | |s| == TARIFF_COUNT witness [0, 0, 0, 0]

  /** The layout `setEnergies` writes: each tariff in turn, big-endian. */
  function EnergiesToBytes(e: Energies): (r: seq<byte>)
    ensures |r| == ENERGIES_SIZE
  {
    Uint32ToBytes(e[0]) + Uint32ToBytes(e[1]) + Uint32ToBytes(e[2]) + Uint32ToBytes(e[3])
  }

  /** The values `getEnergies` reads from an energy group. */
  function BytesToEnergies(s: seq<byte>): (e: Energies)
    requires |s| == ENERGIES_SIZE
  {
    [BytesToUint32(s[0..4]), BytesToUint32(s[4..8]), BytesToUint32(s[8..12]), BytesToUint32(s[12..16])]
  }

  /** Bytes 4k..4k+3 of an energy group are tariff k in big-endian order. */
  lemma EnergiesLayout(e: Energies, k: nat)
    requires k < TARIFF_COUNT
    ensures EnergiesToBytes(e)[4 * k .. 4 * k + 4] == Uint32ToBytes(e[k])
  {
    var r := EnergiesToBytes(e);
    assert r == Uint32ToBytes(e[0]) + Uint32ToBytes(e[1]) + Uint32ToBytes(e[2]) + Uint32ToBytes(e[3]);
  }

  /** Reading an energy group back gives the readings written. */
  lemma EnergiesRoundTrip(e: Energies)
    ensures BytesToEnergies(EnergiesToBytes(e)) == e
  {
    var r := EnergiesToBytes(e);
    forall k | 0 <= k < TARIFF_COUNT
      ensures BytesToEnergies(r)[k] == e[k]
    {
      EnergiesLayout(e, k);
      Uint32RoundTrip(e[k]);
    }
  }

  /** Writing the readings of an energy group gives back its 16 bytes. */
  lemma EnergyBytesRoundTrip(s: seq<byte>)
    requires |s| == ENERGIES_SIZE
    ensures EnergiesToBytes(BytesToEnergies(s)) == s
  {
    var e := BytesToEnergies(s);
    BytesRoundTrip(s[0..4]);
    BytesRoundTrip(s[4..8]);
    BytesRoundTrip(s[8..12]);
    BytesRoundTrip(s[12..16]);
    assert s == s[0..4] + s[4..8] + s[8..12] + s[12..16];
  }

  /** A slice of a slice is a slice of the whole. */
  lemma SliceOfSlice(s: seq<byte>, lo: nat, hi: nat, i: nat, j: nat)
    requires lo <= hi <= |s| && i <= j <= hi - lo
    ensures s[lo .. hi][i .. j] == s[lo + i .. lo + j]
  {
    var a, b := s[lo .. hi][i .. j], s[lo + i .. lo + j];
    assert |a| == |b|;
    forall k | 0 <= k < |a| ensures a[k] == b[k] {
      assert a[k] == s[lo .. hi][i + k] == s[lo + i + k];
    }
  }

  class CommandBuffer {
    /** The owned byte region. */
    var data: array<byte>
    /** The cursor: index of the next byte to read or write. */
    var offset: nat

    /** The cursor never passes the end of the region. */
    ghost predicate Valid()
      reads this
    {
      offset <= data.Length
    }

    /** The bytes of the region, as `toUint8Array` returns them. */
    function Contents(): (r: seq<byte>)
      reads this, data
      ensures |r| == data.Length
      ensures forall i :: 0 <= i < data.Length ==> r[i] == data[i]
    {
      data[..]
    }

    /** True when every byte has been consumed (`isEmpty`). */
    function IsEmpty(): (e: bool)
      reads this
      ensures e <==> offset == data.Length
    {
      offset == data.Length
    }

    /** Decode mode: a buffer over the given bytes, cursor at the start. */
    constructor Wrap(bytes: seq<byte>)
      ensures Valid() && fresh(data)
      ensures Contents() == bytes && offset == 0
    {
      data := new byte[|bytes|](i requires 0 <= i < |bytes| => bytes[i]);
      offset := 0;
    }

    /** Encode mode: a zero-filled buffer of the given capacity. */
    constructor Allocate(size: nat)
      ensures Valid() && fresh(data)
      ensures Contents() == seq(size, _ => 0) && offset == 0
    {
      data := new byte[size](_ => 0);
      offset := 0;
    }

    /** `getUint8`: the byte under the cursor; fails at the end. */
    method GetUint8() returns (r: Result<byte>)
      requires Valid()
      modifies this
      ensures Valid() && data == old(data)
      ensures old(offset) < data.Length ==> r == Ok(data[old(offset)]) && offset == old(offset) + 1
      ensures old(offset) == data.Length ==> r == Err(BufferOverrun) && offset == old(offset)
    {
      if offset == data.Length {
        return Err(BufferOverrun);
      }
      r := Ok(data[offset]);
      offset := offset + 1;
    }

    /** `setUint8`: writes one byte under the cursor; fails when full. */
    method SetUint8(v: byte) returns (r: Outcome)
      requires Valid()
      modifies this, data
      ensures Valid() && data == old(data)
      ensures old(offset) < data.Length ==>
        r == Pass && offset == old(offset) + 1 && Contents() == old(Contents())[old(offset) := v]
      ensures old(offset) == data.Length ==>
        r == Fail(BufferOverflow) && offset == old(offset) && Contents() == old(Contents())
    {
      if offset == data.Length {
        return Fail(BufferOverflow);
      }
      data[offset] := v;
      offset := offset + 1;
      r := Pass;
    }

    /** `getUint32` (big-endian): the four bytes under the cursor. */
    method GetUint32() returns (r: Result<uint32>)
      requires Valid()
      modifies this
      ensures Valid() && data == old(data)
      ensures old(offset) + 4 <= data.Length ==>
        r == Ok(BytesToUint32(data[old(offset) .. old(offset) + 4])) && offset == old(offset) + 4
      ensures old(offset) + 4 > data.Length ==> r == Err(BufferOverrun) && offset == old(offset)
    {
      if data.Length - offset < 4 {
        return Err(BufferOverrun);
      }
      r := Ok(BytesToUint32(data[offset .. offset + 4]));
      offset := offset + 4;
    }

    /** `setUint32` (big-endian): writes four bytes under the cursor. */
    method SetUint32(v: uint32) returns (r: Outcome)
      requires Valid()
      modifies this, data
      ensures Valid() && data == old(data)
      ensures old(offset) + 4 <= data.Length ==>
        r == Pass && offset == old(offset) + 4 &&
        Contents() == old(Contents())[.. old(offset)] + Uint32ToBytes(v) + old(Contents())[old(offset) + 4 ..]
      ensures old(offset) + 4 > data.Length ==>
        r == Fail(BufferOverflow) && offset == old(offset) && Contents() == old(Contents())
    {
      if data.Length - offset < 4 {
        return Fail(BufferOverflow);
      }
      var b := Uint32ToBytes(v);
      data[offset] := b[0];
      data[offset + 1] := b[1];
      data[offset + 2] := b[2];
      data[offset + 3] := b[3];
      offset := offset + 4;
      r := Pass;
    }

    /** `getEnergies`: reads the four tariffs in order. */
    method GetEnergies() returns (r: Result<Energies>)
      requires Valid()
      modifies this
      ensures Valid() && data == old(data)
      ensures old(offset) + ENERGIES_SIZE <= data.Length ==>
        r == Ok(BytesToEnergies(data[old(offset) .. old(offset) + ENERGIES_SIZE])) &&
        offset == old(offset) + ENERGIES_SIZE
      ensures old(offset) + ENERGIES_SIZE > data.Length ==> r == Err(BufferOverrun)
    {
      var start := offset;
      var energies: seq<uint32> := [];
      var k := 0;
      while k < TARIFF_COUNT
        invariant 0 <= k <= TARIFF_COUNT && |energies| == k
        invariant Valid() && data == old(data)
        invariant offset == start + 4 * k
        invariant forall j :: 0 <= j < k ==>
          energies[j] == BytesToUint32(data[start + 4 * j .. start + 4 * j + 4])
      {
        var value :- GetUint32();
        energies := energies + [value];
        k := k + 1;
      }
      ghost var group := data[start .. start + ENERGIES_SIZE];
      forall j | 0 <= j < TARIFF_COUNT
        ensures BytesToEnergies(group)[j] == energies[j]
      {
        SliceOfSlice(data[..], start, start + ENERGIES_SIZE, 4 * j, 4 * j + 4);
      }
      assert energies == BytesToEnergies(group);
      r := Ok(energies);
    }

    /** `setEnergies`: writes the four tariffs in order. */
    method SetEnergies(e: Energies) returns (r: Outcome)
      requires Valid()
      modifies this, data
      ensures Valid() && data == old(data)
      ensures old(offset) + ENERGIES_SIZE <= data.Length ==>
        r == Pass && offset == old(offset) + ENERGIES_SIZE &&
        Contents() == old(Contents())[.. old(offset)] + EnergiesToBytes(e) +
                      old(Contents())[old(offset) + ENERGIES_SIZE ..]
      ensures old(offset) + ENERGIES_SIZE > data.Length ==> r == Fail(BufferOverflow)
    {
      var start := offset;
      var k := 0;
      while k < TARIFF_COUNT
        invariant 0 <= k <= TARIFF_COUNT
        invariant Valid() && data == old(data)
        invariant offset == start + 4 * k
        invariant Contents() == old(Contents())[.. start] + EnergiesToBytes(e)[.. 4 * k] +
                                old(Contents())[start + 4 * k ..]
      {
        var before := Contents();
        var written := SetUint32(e[k]);
        if written.Fail? {
          return written;
        }
        EnergiesLayout(e, k);
        assert EnergiesToBytes(e)[.. 4 * k + 4] == EnergiesToBytes(e)[.. 4 * k] + Uint32ToBytes(e[k]);
        k := k + 1;
      }
      r := Pass;
    }
  }
}
