/** The bytes of a small encoded record, decoded one by one. */
module CipherSamples {
  import opened Ascii
  import opened Cipher
  import Bits

  lemma ByteDecodes(o: nat, encoded: Byte, masked: Byte, plain: Byte)
    requires o < 28 && Bits.XorLow(encoded, 7) == masked && Bits.XorLow(masked, o + 4) == plain
    ensures DecodeByte(o, encoded) == plain
  {
    hide Bits.Xor, Bits.XorLow;
    Bits.XorIsLow(encoded, 7);
    Bits.XorIsLow(masked, o + 4);
  }

  lemma Byte0() ensures DecodeByte(0, 0xb6) == 0xb5
  {
    ByteDecodes(0, 0xb6, 0xb1, 0xb5);
  }

  lemma Byte1() ensures DecodeByte(1, 0x49) == 0x4b
  {
    ByteDecodes(1, 0x49, 0x4e, 0x4b);
  }

  lemma Byte2() ensures DecodeByte(2, 0x30) == 0x31
  {
    ByteDecodes(2, 0x30, 0x37, 0x31);
  }

  lemma Byte3() ensures DecodeByte(3, 0x41) == 0x41
  {
    ByteDecodes(3, 0x41, 0x46, 0x41);
  }

  lemma Byte4() ensures DecodeByte(4, 0xb7) == 0xb8
  {
    ByteDecodes(4, 0xb7, 0xb0, 0xb8);
  }

  lemma Byte5() ensures DecodeByte(5, 0x4f) == 0x41
  {
    ByteDecodes(5, 0x4f, 0x48, 0x41);
  }

  lemma Byte6() ensures DecodeByte(6, 0x41) == 0x4c
  {
    ByteDecodes(6, 0x41, 0x46, 0x4c);
  }

  lemma Byte7() ensures DecodeByte(7, 0xb6) == 0xba
  {
    ByteDecodes(7, 0xb6, 0xb1, 0xba);
  }

  lemma Byte8() ensures DecodeByte(8, 0x59) == 0x52
  {
    ByteDecodes(8, 0x59, 0x5e, 0x52);
  }

  lemma Byte9() ensures DecodeByte(9, 0x4b) == 0x41
  {
    ByteDecodes(9, 0x4b, 0x4c, 0x41);
  }

  lemma Byte10() ensures DecodeByte(10, 0x50) == 0x59
  {
    ByteDecodes(10, 0x50, 0x57, 0x59);
  }

  /** An encoded file of one record: `K1A`, first name AL, last name RAY. */
  const RAY_FILE: Bytes := [0xb6, 0x49, 0x30, 0x41, 0xb7, 0x4f, 0x41, 0xb6, 0x59, 0x4b, 0x50]

  lemma RayDecodes()
    ensures DecodeAt(0, RAY_FILE)
            == [0xb5, 0x4b, 0x31, 0x41, 0xb8, 0x41, 0x4c, 0xba, 0x52, 0x41, 0x59]
  {
    hide DecodeByte;
    Byte0();
    Byte1();
    Byte2();
    Byte3();
    Byte4();
    Byte5();
    Byte6();
    Byte7();
    Byte8();
    Byte9();
    Byte10();
  }
}
