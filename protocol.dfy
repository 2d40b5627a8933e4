/**
 * Wire-level vocabulary of the boot loader protocol (bmc_update_lib.h):
 * command and status codes, the framing tokens, the size of the host's file
 * window, and the two byte-level encodings the host uses — the 8-bit checksum
 * and the 32-bit big-endian fields of the DOWNLOAD and RUN commands.
 */
module Protocol {

  /** An unsigned 8-bit value (uint8_t). */
  type Byte = b: int | 0 <= b < 256

  const COMMAND_PING: Byte := 0x20
  const COMMAND_DOWNLOAD: Byte := 0x21
  const COMMAND_RUN: Byte := 0x22
  const COMMAND_GET_STATUS: Byte := 0x23
  const COMMAND_SEND_DATA: Byte := 0x24
  const COMMAND_RESET: Byte := 0x25

  const COMMAND_RET_SUCCESS: Byte := 0x40
  const COMMAND_RET_UNKNOWN_CMD: Byte := 0x41
  const COMMAND_RET_INVALID_CMD: Byte := 0x42
  const COMMAND_RET_INVALID_ADDR: Byte := 0x43
  const COMMAND_RET_FLASH_FAIL: Byte := 0x44
  const COMMAND_ACK: Byte := 0xcc
  const COMMAND_NAK: Byte := 0x33

  const COMMAND_ENTER_BOOTLOADER: Byte := 0x51

  /** Size of the host's file window (32 KiB). */
  const FILE_BUFFER_LENGTH: nat := 0x8000

  /** The one boot loader image size the host accepts (8 KiB). */
  const BOOTLOADER_LENGTH: nat := 0x2000

  /** The value of erased flash, used to pad between boot loader and application. */
  const ERASED: Byte := 0xff

  /** 2^32: every uint32_t quantity is below it. */
  const U32_LIMIT: nat := 0x1_0000_0000

  /** The largest payload a frame can carry: its length byte is the payload size plus 2. */
  const MAX_PAYLOAD: nat := 253

  /** Plain (unbounded) sum of the bytes of s. */
  function Sum(s: seq<Byte>): nat
  {
    if s == [] then 0 else Sum(s[..|s| - 1]) + s[|s| - 1]
  }

  /** The frame checksum: the byte sum of the payload, wrapping modulo 256. */
  function Sum8(s: seq<Byte>): Byte
  {
    Sum(s) % 256
  }

  /** Sum is additive over concatenation. */
  lemma {:induction false} SumAppend(a: seq<Byte>, b: seq<Byte>)
    ensures Sum(a + b) == Sum(a) + Sum(b)
    decreases |b|
  {
    if b == [] {
      assert a + b == a;
    } else {
      var b' := b[..|b| - 1];
      assert (a + b)[..|a + b| - 1] == a + b';
      SumAppend(a, b');
    }
  }

  /** A one-byte payload is its own checksum. */
  lemma Sum8Single(b: Byte)
    ensures Sum8([b]) == b
  {
    assert [b][..0] == [];
    assert Sum([b]) == Sum([]) + b;
  }

  /** Replacing one byte changes the sum by exactly the difference of the two bytes. */
  lemma SumUpdate(s: seq<Byte>, i: nat, x: Byte)
    requires i < |s|
    ensures Sum(s[i := x]) == Sum(s) - s[i] + x
  {
    assert s == s[..i] + [s[i]] + s[i + 1..];
    assert s[i := x] == s[..i] + [x] + s[i + 1..];
    SumAppend(s[..i] + [s[i]], s[i + 1..]);
    SumAppend(s[..i], [s[i]]);
    SumAppend(s[..i] + [x], s[i + 1..]);
    SumAppend(s[..i], [x]);
    assert Sum([s[i]]) == s[i] by { assert [s[i]][..0] == []; }
    assert Sum([x]) == x by { assert [x][..0] == []; }
  }

  /** Changing any single byte of a payload changes its 8-bit checksum. */
  lemma {:induction false} Sum8DetectsSingleByteChange(s: seq<Byte>, i: nat, x: Byte)
    requires i < |s| && x != s[i]
    ensures Sum8(s[i := x]) != Sum8(s)
  {
    SumUpdate(s, i, x);
  }

  /** The 4-byte big-endian encoding of a 32-bit value, as the host writes it
   *  byte by byte with `(uint8_t)(x >> 24)`, …, `(uint8_t)x`. */
  function BigEndian32(x: nat): (r: seq<Byte>)
    requires x < U32_LIMIT
    ensures |r| == 4
    ensures FromBigEndian(r) == x
  {
    var r := [(x / 0x100_0000) % 0x100, (x / 0x1_0000) % 0x100, (x / 0x100) % 0x100, x % 0x100];
    BigEndianDigits(x);
    assert FromBigEndian(r[..1]) == r[0] by { assert r[..1][..0] == []; }
    assert FromBigEndian(r[..2]) == r[0] * 0x100 + r[1] by { assert r[..2][..1] == r[..1]; }
    assert FromBigEndian(r[..3]) == (r[0] * 0x100 + r[1]) * 0x100 + r[2] by { assert r[..3][..2] == r[..2]; }
    assert r[..4][..3] == r[..3] && r[..4] == r;
    r
  }

  /** The four shifted-and-truncated bytes recombine to x. */
  lemma BigEndianDigits(x: nat)
    requires x < U32_LIMIT
    ensures (((x / 0x100_0000) % 0x100 * 0x100 + (x / 0x1_0000) % 0x100) * 0x100
             + (x / 0x100) % 0x100) * 0x100 + x % 0x100 == x
  {
    var q1 := x / 0x100;
    var q2 := q1 / 0x100;
    var q3 := q2 / 0x100;
    assert x / 0x1_0000 == q2;
    assert x / 0x100_0000 == q3;
    assert q3 < 0x100;
  }

  /** Reads back a big-endian number. */
  function FromBigEndian(s: seq<Byte>): nat
  {
    if s == [] then 0 else FromBigEndian(s[..|s| - 1]) * 0x100 + s[|s| - 1]
  }

}
