/** The Dallas/Maxim 1-Wire CRC-8 (src/crc.rs): polynomial x^8 + x^5 + x^4 + 1 processed
    least-significant bit first (the reflected constant 0x8C), register starting at 0. */
module Crc {
  import opened Errors

  /** The register and the remaining data bits after one turn of the inner loop. */
  datatype Registers = Registers(crc: bv8, byte: bv8)

  /** One turn of the inner loop: the low bit of `byte ^ crc` decides whether the shifted
      register is xored with 0x8C; the data byte moves on to its next bit. */
  function Step(r: Registers): (s: Registers)
    ensures s.byte == r.byte >> 1
    ensures s.crc & 0x80 != 0 <==> (r.byte ^ r.crc) & 1 != 0
  {
    var x := (r.byte ^ r.crc) & 0x01;
    var crc := r.crc >> 1;
    Registers(if x != 0 then crc ^ 0x8C else crc, r.byte >> 1)
  }

  /** `n` turns of the inner loop. */
  function Steps(r: Registers, n: nat): Registers
    decreases n
  {
    if n == 0 then r else Steps(Step(r), n - 1)
  }

  /** The register after the eight turns that consume one data byte. */
  function CrcByte(crc: bv8, byte: bv8): bv8 {
    Steps(Registers(crc, byte), 8).crc
  }

  /** The outer loop from register `crc`: a left fold of `CrcByte` over `data`. */
  function CrcFrom(crc: bv8, data: seq<bv8>): bv8
    decreases |data|
  {
    if |data| == 0 then crc else CrcFrom(CrcByte(crc, data[0]), data[1..])
  }

  /** `crc8(data)`: the fold started from a zero register. */
  function Crc8(data: seq<bv8>): bv8 {
    CrcFrom(0, data)
  }

  /** `crc8` as written: nested loops updating the `crc` and `byte` registers. */
  method ComputeCrc8(data: seq<bv8>) returns (crc: bv8)
    ensures crc == Crc8(data)
  {
    crc := 0;
    for i := 0 to |data|
      invariant CrcFrom(crc, data[i..]) == Crc8(data)
    {
      var byte := data[i];
      ghost var start := crc;
      for k := 0 to 8
        invariant Steps(Registers(crc, byte), 8 - k).crc == CrcByte(start, data[i])
      {
        var x := (byte ^ crc) & 0x01;
        crc := crc >> 1;
        if x != 0 {
          crc := crc ^ 0x8C;
        }
        byte := byte >> 1;
      }
      assert data[i..][1..] == data[i + 1..];
    }
  }

  /** `check_crc8`: data that carries its own checksum byte passes when the register ends at 0. */
  function CheckCrc8(data: seq<bv8>): (r: Result<()>)
    ensures r.Ok? <==> Crc8(data) == 0
    ensures r.Err? ==> r.error == CrcMismatch
  {
    if Crc8(data) == 0 then Ok(()) else Err(CrcMismatch)
  }

  /** No data leaves the register at its initial 0. */
  lemma Crc8Empty()
    ensures Crc8([]) == 0
  {}

  /** The fold over a concatenation continues the fold over the first part. */
  lemma {:induction false} CrcFromAppend(crc: bv8, a: seq<bv8>, b: seq<bv8>)
    decreases |a|
    ensures CrcFrom(crc, a + b) == CrcFrom(CrcFrom(crc, a), b)
  {
    if |a| == 0 {
      assert a + b == b;
    } else {
      assert (a + b)[0] == a[0] && (a + b)[1..] == a[1..] + b;
      CrcFromAppend(CrcByte(crc, a[0]), a[1..], b);
    }
  }

  /** `crc8(a ++ b)` is the fold over `b` continued from `crc8(a)`. */
  lemma Crc8Append(a: seq<bv8>, b: seq<bv8>)
    ensures Crc8(a + b) == CrcFrom(Crc8(a), b)
  {
    CrcFromAppend(0, a, b);
  }

  /** Shifting right `n` times. */
  function Halve(c: bv8, n: nat): bv8
    decreases n
  {
    if n == 0 then c else Halve(c >> 1, n - 1)
  }

  /** When the data byte equals the register, every turn has a zero feedback bit and both
      registers simply shift. */
  lemma {:induction false} StepsOnEqual(c: bv8, n: nat)
    decreases n
    ensures Steps(Registers(c, c), n).crc == Halve(c, n)
  {
    if n > 0 {
      assert Step(Registers(c, c)) == Registers(c >> 1, c >> 1);
      StepsOnEqual(c >> 1, n - 1);
    }
  }

  lemma HalveEight(c: bv8)
    ensures Halve(c, 8) == 0
  {
    var c4 := c >> 1 >> 1 >> 1 >> 1;
    assert Halve(c, 8) == Halve(c4, 4);
    assert Halve(c4, 4) == Halve(c4 >> 1 >> 1 >> 1 >> 1, 0);
  }

  /** Feeding the register its own value clears it. */
  lemma CrcByteSelf(c: bv8)
    ensures CrcByte(c, c) == 0
  {
    StepsOnEqual(c, 8);
    HalveEight(c);
  }

  /** The self-check law: appending the checksum byte drives the register to 0, so data
      followed by its checksum always passes `check_crc8`. */
  lemma Crc8SelfCheck(data: seq<bv8>)
    ensures Crc8(data + [Crc8(data)]) == 0
    ensures CheckCrc8(data + [Crc8(data)]) == Ok(())
  {
    Crc8Append(data, [Crc8(data)]);
    CrcByteSelf(Crc8(data));
  }

  /** The first known vector: its checksum is 21, and with the checksum appended the
      register ends at 0. The asserts name the register after each byte. */
  lemma KnownVector1()
    ensures Crc8([99, 1, 75, 70, 127, 255, 13, 16]) == 21
    ensures Crc8([99, 1, 75, 70, 127, 255, 13, 16, 21]) == 0
  {
    assert CrcByte(0, 99) == 135;
    assert CrcByte(135, 1) == 81;
    assert CrcByte(81, 75) == 227;
    assert CrcByte(227, 70) == 144;
    assert CrcByte(144, 127) == 168;
    assert CrcByte(168, 255) == 88;
    assert CrcByte(88, 13) == 228;
    assert CrcByte(228, 16) == 21;
    CrcByteSelf(21);
  }

  /** The second known vector: its checksum is 2, and with the checksum appended the
      register ends at 0. The asserts name the register after each byte. */
  lemma KnownVector2()
    ensures Crc8([97, 1, 75, 70, 127, 255, 15, 16]) == 2
    ensures Crc8([97, 1, 75, 70, 127, 255, 15, 16, 2]) == 0
  {
    assert CrcByte(0, 97) == 59;
    assert CrcByte(59, 1) == 192;
    assert CrcByte(192, 75) == 172;
    assert CrcByte(172, 70) == 151;
    assert CrcByte(151, 127) == 43;
    assert CrcByte(43, 255) == 54;
    assert CrcByte(54, 15) == 34;
    assert CrcByte(34, 16) == 2;
    CrcByteSelf(2);
  }

  /** The third known vector: its checksum is 155, and with the checksum appended the
      register ends at 0. The asserts name the register after each byte. */
  lemma KnownVector3()
    ensures Crc8([95, 1, 75, 70, 127, 255, 1, 16]) == 155
    ensures Crc8([95, 1, 75, 70, 127, 255, 1, 16, 155]) == 0
  {
    assert CrcByte(0, 95) == 154;
    assert CrcByte(154, 1) == 49;
    assert CrcByte(49, 75) == 134;
    assert CrcByte(134, 70) == 202;
    assert CrcByte(202, 127) == 13;
    assert CrcByte(13, 255) == 200;
    assert CrcByte(200, 1) == 86;
    assert CrcByte(86, 16) == 155;
    CrcByteSelf(155);
  }
}
