/**
 * The one-wire ROM address codec: a 64-bit address as the ds18x20 driver
 * stores it (`ds18x20_addr_t`, an unsigned 64-bit integer) and the 8-byte
 * `Device_address` handed to callers, byte 0 being the least significant.
 */
module AddressCodec {

  /** An unsigned 8-bit value (`uint8_t`). */
  type Byte = b: int | 0 <= b < 256

  /** An unsigned 64-bit value (`uint64_t`, the driver's `ds18x20_addr_t`). */
  type Address64 = a: int | 0 <= a < 0x1_0000_0000_0000_0000

  const BYTES_PER_ADDRESS: nat := 8

  /** Reduction modulo 2^64: what a `uint64_t` result keeps of an integer. */
  function Wrap64(x: int): (w: Address64)
    ensures 0 <= x < 0x1_0000_0000_0000_0000 ==> w == x
  {
    x % 0x1_0000_0000_0000_0000
  }

  /** 256 to the power n: the weight of byte n in a little-endian number. */
  function Pow256(n: nat): (p: nat)
    ensures p >= 1
  {
    if n == 0 then 1 else 256 * Pow256(n - 1)
  }

  lemma {:induction false} Pow256Monotone(m: nat, n: nat)
    requires m <= n
    ensures Pow256(m) <= Pow256(n)
  {
    if m < n {
      Pow256Monotone(m, n - 1);
    }
  }

  lemma Pow256Eight()
    ensures Pow256(BYTES_PER_ADDRESS) == 0x1_0000_0000_0000_0000
  {
  }

  /** The n low-order bytes of a, least significant first. */
  function LittleEndian(a: nat, n: nat): (bytes: seq<Byte>)
    ensures |bytes| == n
  {
    if n == 0 then [] else [a % 256] + LittleEndian(a / 256, n - 1)
  }

  /** The number whose little-endian bytes are `bytes` (byte 0 least significant). */
  function FromBytes(bytes: seq<Byte>): (a: nat)
    ensures a < Pow256(|bytes|)
  {
    if bytes == [] then 0 else bytes[0] + 256 * FromBytes(bytes[1..])
  }

  /** The `Device_address` form of a 64-bit address. */
  function ToDeviceAddress(a: Address64): (bytes: seq<Byte>)
    ensures |bytes| == BYTES_PER_ADDRESS
  {
    LittleEndian(a, BYTES_PER_ADDRESS)
  }

  /**
   * The 64-bit address whose `Device_address` form is `bytes`: byte 0 is its
   * least significant byte and byte 7 its most significant.
   */
  function FromDeviceAddress(bytes: seq<Byte>): (a: Address64)
    requires |bytes| == BYTES_PER_ADDRESS
    ensures a % 256 == bytes[0]
    ensures bytes[7] * Pow256(7) <= a < (bytes[7] + 1) * Pow256(7)
  {
    Pow256Eight();
    FromBytesLast(bytes);
    FromBytes(bytes)
  }

  /** The last byte of a sequence weighs 256^(n-1). */
  lemma {:induction false} FromBytesLast(bytes: seq<Byte>)
    requires |bytes| > 0
    ensures FromBytes(bytes) == FromBytes(bytes[..|bytes| - 1]) + Pow256(|bytes| - 1) * bytes[|bytes| - 1]
  {
    var n := |bytes|;
    if n > 1 {
      var rest := bytes[1..];
      FromBytesLast(rest);
      assert rest[..n - 2] == bytes[..n - 1][1..];
      assert rest[n - 2] == bytes[n - 1];
      var p := Pow256(n - 2);
      assert 256 * (p * bytes[n - 1]) == (256 * p) * bytes[n - 1];
    }
  }

  lemma MulMonotone(x: int, y: int, d: nat)
    requires x <= y
    ensures x * d <= y * d
  {
  }

  lemma DivUnique(a: int, d: int, q: int, r: int)
    requires d > 0 && a == q * d + r && 0 <= r < d
    ensures a / d == q
  {
    var q', r' := a / d, a % d;
    assert a == q' * d + r';
    if q > q' {
      MulMonotone(q' + 1, q, d);
      assert false;
    } else if q < q' {
      MulMonotone(q + 1, q', d);
      assert false;
    }
  }

  lemma DivDiv(a: nat, b: nat, c: nat)
    requires b > 0 && c > 0
    ensures a / b / c == a / (b * c)
  {
    var q, r := a / b, a % b;
    var q2, r2 := q / c, q % c;
    assert a == q * b + r;
    assert q == q2 * c + r2;
    assert q * b == q2 * (b * c) + r2 * b;
    MulMonotone(r2, c - 1, b);
    assert (c - 1) * b == b * c - b;
    DivUnique(a, b * c, q2, r2 * b + r);
  }

  /** Byte k of the little-endian form is `(a >> 8*k) & 0xFF`. */
  lemma {:induction false} LittleEndianAt(a: nat, n: nat, k: nat)
    requires k < n
    ensures LittleEndian(a, n)[k] == (a / Pow256(k)) % 256
  {
    if k > 0 {
      LittleEndianAt(a / 256, n - 1, k - 1);
      DivDiv(a, 256, Pow256(k - 1));
    }
  }

  /** Decoding the n little-endian bytes of a number below 256^n gives it back. */
  lemma {:induction false} FromLittleEndian(a: nat, n: nat)
    requires a < Pow256(n)
    ensures FromBytes(LittleEndian(a, n)) == a
  {
    if n > 0 {
      assert a / 256 < Pow256(n - 1);
      FromLittleEndian(a / 256, n - 1);
      assert LittleEndian(a, n)[1..] == LittleEndian(a / 256, n - 1);
    }
  }

  /** Encoding the number a byte sequence denotes gives the same bytes back. */
  lemma {:induction false} LittleEndianOfFromBytes(bytes: seq<Byte>)
    ensures LittleEndian(FromBytes(bytes), |bytes|) == bytes
  {
    if bytes != [] {
      var rest := FromBytes(bytes[1..]);
      assert FromBytes(bytes) % 256 == bytes[0];
      assert FromBytes(bytes) / 256 == rest;
      LittleEndianOfFromBytes(bytes[1..]);
    }
  }

  /** Every byte of the `Device_address` form of a is `(a >> 8*i) & 0xFF`. */
  lemma DeviceAddressBytes(a: Address64, i: nat)
    requires i < BYTES_PER_ADDRESS
    ensures ToDeviceAddress(a)[i] == (a / Pow256(i)) % 256
  {
    LittleEndianAt(a, BYTES_PER_ADDRESS, i);
  }

  /** Address -> bytes -> address is the identity on every 64-bit address. */
  lemma AddressRoundTrip(a: Address64)
    ensures FromDeviceAddress(ToDeviceAddress(a)) == a
  {
    Pow256Eight();
    FromLittleEndian(a, BYTES_PER_ADDRESS);
  }

  /** Bytes -> address -> bytes is the identity on every 8-byte `Device_address`. */
  lemma DeviceAddressRoundTrip(bytes: seq<Byte>)
    requires |bytes| == BYTES_PER_ADDRESS
    ensures ToDeviceAddress(FromDeviceAddress(bytes)) == bytes
  {
    LittleEndianOfFromBytes(bytes);
  }

  /** The address 560 (0x230) is the byte array 30 02 00 00 00 00 00 00. */
  lemma Address560()
    ensures ToDeviceAddress(560) == [0x30, 0x02, 0, 0, 0, 0, 0, 0]
  {
  }

  /**
   * Writes the little-endian bytes of `addressToConvert` into the caller's
   * 8-byte buffer, taking the low byte and shifting right by 8 each round.
   */
  method ConvertToDeviceAddress(addressGot: array<Byte>, addressToConvert: Address64)
    requires addressGot.Length == BYTES_PER_ADDRESS
    modifies addressGot
    ensures addressGot[..] == ToDeviceAddress(addressToConvert)
  {
    var rest: nat := addressToConvert;
    for i := 0 to BYTES_PER_ADDRESS
      invariant addressGot[..i] + LittleEndian(rest, BYTES_PER_ADDRESS - i) == ToDeviceAddress(addressToConvert)
    {
      ghost var done := addressGot[..i];
      addressGot[i] := rest % 256;             // address_to_convert & 0xFF
      assert addressGot[..i + 1] == done + [rest % 256];
      rest := rest / 256;                      // address_to_convert >>= 8
    }
    assert addressGot[..BYTES_PER_ADDRESS] == addressGot[..];
  }

  /**
   * Folds the 8 bytes of `address` from byte 7 down to byte 0 into a
   * `uint64_t` accumulator (shift left by 8, add the byte), wrapping as the
   * C arithmetic does; the wrap never takes effect.
   */
  method AddressFromDeviceAddress(address: array<Byte>) returns (a: Address64)
    requires address.Length == BYTES_PER_ADDRESS
    ensures a == FromDeviceAddress(address[..])
  {
    var acc: Address64 := 0;
    var i: int := BYTES_PER_ADDRESS - 1;
    while i >= 0
      invariant -1 <= i < BYTES_PER_ADDRESS
      invariant acc == FromBytes(address[i + 1..])
    {
      Pow256Monotone(BYTES_PER_ADDRESS - 1 - i, BYTES_PER_ADDRESS - 1);
      Pow256Eight();
      assert acc * 256 + address[i] < 0x1_0000_0000_0000_0000;
      assert address[i..][1..] == address[i + 1..];
      acc := Wrap64(Wrap64(acc * 256) + address[i]);
      i := i - 1;
    }
    assert address[0..] == address[..];
    a := acc;
  }
}
