// The 256 constants of dshowserver/crc32.c, and the proof that each of them is
// what eight single-bit division steps make of its index.
module Crc32Table {

  // The generator X^32+X^26+X^23+X^22+X^16+X^12+X^11+X^10+X^8+X^7+X^5+X^4+X^2+X+1
  // in reflected order: bit 31 is the constant term, bit 0 is X^31.
  const POLYNOMIAL: bv32 := 0xEDB88320

  /** One step of the reflected division: multiply the register by X modulo the generator. */
  function BitStep(s: bv32): bv32 {
    if s & 1 == 1 then (s >> 1) ^ POLYNOMIAL else s >> 1
  }

  /** Addition of polynomials over GF(2). */
  function Xor(a: bv32, b: bv32): bv32 {
    a ^ b
  }

  function Steps(s: bv32, n: nat): bv32
    decreases n, s
  {
    if n == 0 then s else Steps(BitStep(s), n - 1)
  }

  /** The constant table, selected by the high nibble of the index and then by its row. */
  function Entry(i: bv8): bv32 {
    match i >> 4
    case 0 => Row0(i)
    case 1 => Row1(i)
    case 2 => Row2(i)
    case 3 => Row3(i)
    case 4 => Row4(i)
    case 5 => Row5(i)
    case 6 => Row6(i)
    case 7 => Row7(i)
    case 8 => Row8(i)
    case 9 => Row9(i)
    case 10 => Row10(i)
    case 11 => Row11(i)
    case 12 => Row12(i)
    case 13 => Row13(i)
    case 14 => Row14(i)
    case _ => Row15(i)
  }

  function Row0(i: bv8): bv32 {
    match i
    case 0x00 => 0x00000000
    case 0x01 => 0x77073096
    case 0x02 => 0xEE0E612C
    case 0x03 => 0x990951BA
    case 0x04 => 0x076DC419
    case 0x05 => 0x706AF48F
    case 0x06 => 0xE963A535
    case 0x07 => 0x9E6495A3
    case 0x08 => 0x0EDB8832
    case 0x09 => 0x79DCB8A4
    case 0x0A => 0xE0D5E91E
    case 0x0B => 0x97D2D988
    case 0x0C => 0x09B64C2B
    case 0x0D => 0x7EB17CBD
    case 0x0E => 0xE7B82D07
    case _ => 0x90BF1D91
  }

  function Row1(i: bv8): bv32 {
    match i
    case 0x10 => 0x1DB71064
    case 0x11 => 0x6AB020F2
    case 0x12 => 0xF3B97148
    case 0x13 => 0x84BE41DE
    case 0x14 => 0x1ADAD47D
    case 0x15 => 0x6DDDE4EB
    case 0x16 => 0xF4D4B551
    case 0x17 => 0x83D385C7
    case 0x18 => 0x136C9856
    case 0x19 => 0x646BA8C0
    case 0x1A => 0xFD62F97A
    case 0x1B => 0x8A65C9EC
    case 0x1C => 0x14015C4F
    case 0x1D => 0x63066CD9
    case 0x1E => 0xFA0F3D63
    case _ => 0x8D080DF5
  }

  function Row2(i: bv8): bv32 {
    match i
    case 0x20 => 0x3B6E20C8
    case 0x21 => 0x4C69105E
    case 0x22 => 0xD56041E4
    case 0x23 => 0xA2677172
    case 0x24 => 0x3C03E4D1
    case 0x25 => 0x4B04D447
    case 0x26 => 0xD20D85FD
    case 0x27 => 0xA50AB56B
    case 0x28 => 0x35B5A8FA
    case 0x29 => 0x42B2986C
    case 0x2A => 0xDBBBC9D6
    case 0x2B => 0xACBCF940
    case 0x2C => 0x32D86CE3
    case 0x2D => 0x45DF5C75
    case 0x2E => 0xDCD60DCF
    case _ => 0xABD13D59
  }

  function Row3(i: bv8): bv32 {
    match i
    case 0x30 => 0x26D930AC
    case 0x31 => 0x51DE003A
    case 0x32 => 0xC8D75180
    case 0x33 => 0xBFD06116
    case 0x34 => 0x21B4F4B5
    case 0x35 => 0x56B3C423
    case 0x36 => 0xCFBA9599
    case 0x37 => 0xB8BDA50F
    case 0x38 => 0x2802B89E
    case 0x39 => 0x5F058808
    case 0x3A => 0xC60CD9B2
    case 0x3B => 0xB10BE924
    case 0x3C => 0x2F6F7C87
    case 0x3D => 0x58684C11
    case 0x3E => 0xC1611DAB
    case _ => 0xB6662D3D
  }

  function Row4(i: bv8): bv32 {
    match i
    case 0x40 => 0x76DC4190
    case 0x41 => 0x01DB7106
    case 0x42 => 0x98D220BC
    case 0x43 => 0xEFD5102A
    case 0x44 => 0x71B18589
    case 0x45 => 0x06B6B51F
    case 0x46 => 0x9FBFE4A5
    case 0x47 => 0xE8B8D433
    case 0x48 => 0x7807C9A2
    case 0x49 => 0x0F00F934
    case 0x4A => 0x9609A88E
    case 0x4B => 0xE10E9818
    case 0x4C => 0x7F6A0DBB
    case 0x4D => 0x086D3D2D
    case 0x4E => 0x91646C97
    case _ => 0xE6635C01
  }

  function Row5(i: bv8): bv32 {
    match i
    case 0x50 => 0x6B6B51F4
    case 0x51 => 0x1C6C6162
    case 0x52 => 0x856530D8
    case 0x53 => 0xF262004E
    case 0x54 => 0x6C0695ED
    case 0x55 => 0x1B01A57B
    case 0x56 => 0x8208F4C1
    case 0x57 => 0xF50FC457
    case 0x58 => 0x65B0D9C6
    case 0x59 => 0x12B7E950
    case 0x5A => 0x8BBEB8EA
    case 0x5B => 0xFCB9887C
    case 0x5C => 0x62DD1DDF
    case 0x5D => 0x15DA2D49
    case 0x5E => 0x8CD37CF3
    case _ => 0xFBD44C65
  }

  function Row6(i: bv8): bv32 {
    match i
    case 0x60 => 0x4DB26158
    case 0x61 => 0x3AB551CE
    case 0x62 => 0xA3BC0074
    case 0x63 => 0xD4BB30E2
    case 0x64 => 0x4ADFA541
    case 0x65 => 0x3DD895D7
    case 0x66 => 0xA4D1C46D
    case 0x67 => 0xD3D6F4FB
    case 0x68 => 0x4369E96A
    case 0x69 => 0x346ED9FC
    case 0x6A => 0xAD678846
    case 0x6B => 0xDA60B8D0
    case 0x6C => 0x44042D73
    case 0x6D => 0x33031DE5
    case 0x6E => 0xAA0A4C5F
    case _ => 0xDD0D7CC9
  }

  function Row7(i: bv8): bv32 {
    match i
    case 0x70 => 0x5005713C
    case 0x71 => 0x270241AA
    case 0x72 => 0xBE0B1010
    case 0x73 => 0xC90C2086
    case 0x74 => 0x5768B525
    case 0x75 => 0x206F85B3
    case 0x76 => 0xB966D409
    case 0x77 => 0xCE61E49F
    case 0x78 => 0x5EDEF90E
    case 0x79 => 0x29D9C998
    case 0x7A => 0xB0D09822
    case 0x7B => 0xC7D7A8B4
    case 0x7C => 0x59B33D17
    case 0x7D => 0x2EB40D81
    case 0x7E => 0xB7BD5C3B
    case _ => 0xC0BA6CAD
  }

  function Row8(i: bv8): bv32 {
    match i
    case 0x80 => 0xEDB88320
    case 0x81 => 0x9ABFB3B6
    case 0x82 => 0x03B6E20C
    case 0x83 => 0x74B1D29A
    case 0x84 => 0xEAD54739
    case 0x85 => 0x9DD277AF
    case 0x86 => 0x04DB2615
    case 0x87 => 0x73DC1683
    case 0x88 => 0xE3630B12
    case 0x89 => 0x94643B84
    case 0x8A => 0x0D6D6A3E
    case 0x8B => 0x7A6A5AA8
    case 0x8C => 0xE40ECF0B
    case 0x8D => 0x9309FF9D
    case 0x8E => 0x0A00AE27
    case _ => 0x7D079EB1
  }

  function Row9(i: bv8): bv32 {
    match i
    case 0x90 => 0xF00F9344
    case 0x91 => 0x8708A3D2
    case 0x92 => 0x1E01F268
    case 0x93 => 0x6906C2FE
    case 0x94 => 0xF762575D
    case 0x95 => 0x806567CB
    case 0x96 => 0x196C3671
    case 0x97 => 0x6E6B06E7
    case 0x98 => 0xFED41B76
    case 0x99 => 0x89D32BE0
    case 0x9A => 0x10DA7A5A
    case 0x9B => 0x67DD4ACC
    case 0x9C => 0xF9B9DF6F
    case 0x9D => 0x8EBEEFF9
    case 0x9E => 0x17B7BE43
    case _ => 0x60B08ED5
  }

  function Row10(i: bv8): bv32 {
    match i
    case 0xA0 => 0xD6D6A3E8
    case 0xA1 => 0xA1D1937E
    case 0xA2 => 0x38D8C2C4
    case 0xA3 => 0x4FDFF252
    case 0xA4 => 0xD1BB67F1
    case 0xA5 => 0xA6BC5767
    case 0xA6 => 0x3FB506DD
    case 0xA7 => 0x48B2364B
    case 0xA8 => 0xD80D2BDA
    case 0xA9 => 0xAF0A1B4C
    case 0xAA => 0x36034AF6
    case 0xAB => 0x41047A60
    case 0xAC => 0xDF60EFC3
    case 0xAD => 0xA867DF55
    case 0xAE => 0x316E8EEF
    case _ => 0x4669BE79
  }

  function Row11(i: bv8): bv32 {
    match i
    case 0xB0 => 0xCB61B38C
    case 0xB1 => 0xBC66831A
    case 0xB2 => 0x256FD2A0
    case 0xB3 => 0x5268E236
    case 0xB4 => 0xCC0C7795
    case 0xB5 => 0xBB0B4703
    case 0xB6 => 0x220216B9
    case 0xB7 => 0x5505262F
    case 0xB8 => 0xC5BA3BBE
    case 0xB9 => 0xB2BD0B28
    case 0xBA => 0x2BB45A92
    case 0xBB => 0x5CB36A04
    case 0xBC => 0xC2D7FFA7
    case 0xBD => 0xB5D0CF31
    case 0xBE => 0x2CD99E8B
    case _ => 0x5BDEAE1D
  }

  function Row12(i: bv8): bv32 {
    match i
    case 0xC0 => 0x9B64C2B0
    case 0xC1 => 0xEC63F226
    case 0xC2 => 0x756AA39C
    case 0xC3 => 0x026D930A
    case 0xC4 => 0x9C0906A9
    case 0xC5 => 0xEB0E363F
    case 0xC6 => 0x72076785
    case 0xC7 => 0x05005713
    case 0xC8 => 0x95BF4A82
    case 0xC9 => 0xE2B87A14
    case 0xCA => 0x7BB12BAE
    case 0xCB => 0x0CB61B38
    case 0xCC => 0x92D28E9B
    case 0xCD => 0xE5D5BE0D
    case 0xCE => 0x7CDCEFB7
    case _ => 0x0BDBDF21
  }

  function Row13(i: bv8): bv32 {
    match i
    case 0xD0 => 0x86D3D2D4
    case 0xD1 => 0xF1D4E242
    case 0xD2 => 0x68DDB3F8
    case 0xD3 => 0x1FDA836E
    case 0xD4 => 0x81BE16CD
    case 0xD5 => 0xF6B9265B
    case 0xD6 => 0x6FB077E1
    case 0xD7 => 0x18B74777
    case 0xD8 => 0x88085AE6
    case 0xD9 => 0xFF0F6A70
    case 0xDA => 0x66063BCA
    case 0xDB => 0x11010B5C
    case 0xDC => 0x8F659EFF
    case 0xDD => 0xF862AE69
    case 0xDE => 0x616BFFD3
    case _ => 0x166CCF45
  }

  function Row14(i: bv8): bv32 {
    match i
    case 0xE0 => 0xA00AE278
    case 0xE1 => 0xD70DD2EE
    case 0xE2 => 0x4E048354
    case 0xE3 => 0x3903B3C2
    case 0xE4 => 0xA7672661
    case 0xE5 => 0xD06016F7
    case 0xE6 => 0x4969474D
    case 0xE7 => 0x3E6E77DB
    case 0xE8 => 0xAED16A4A
    case 0xE9 => 0xD9D65ADC
    case 0xEA => 0x40DF0B66
    case 0xEB => 0x37D83BF0
    case 0xEC => 0xA9BCAE53
    case 0xED => 0xDEBB9EC5
    case 0xEE => 0x47B2CF7F
    case _ => 0x30B5FFE9
  }

  function Row15(i: bv8): bv32 {
    match i
    case 0xF0 => 0xBDBDF21C
    case 0xF1 => 0xCABAC28A
    case 0xF2 => 0x53B39330
    case 0xF3 => 0x24B4A3A6
    case 0xF4 => 0xBAD03605
    case 0xF5 => 0xCDD70693
    case 0xF6 => 0x54DE5729
    case 0xF7 => 0x23D967BF
    case 0xF8 => 0xB3667A2E
    case 0xF9 => 0xC4614AB8
    case 0xFA => 0x5D681B02
    case 0xFB => 0x2A6F2B94
    case 0xFC => 0xB40BBE37
    case 0xFD => 0xC30C8EA1
    case 0xFE => 0x5A05DF1B
    case _ => 0x2D02EF8D
  }

  /** Every literal of the table is eight division steps of its own index. */
  lemma EntryIsEightSteps(i: bv8)
    ensures Entry(i) == Steps(i as bv32, 8)
  {
    match i >> 4
    case 0 => RowIsEightSteps0(i);
    case 1 => RowIsEightSteps1(i);
    case 2 => RowIsEightSteps2(i);
    case 3 => RowIsEightSteps3(i);
    case 4 => RowIsEightSteps4(i);
    case 5 => RowIsEightSteps5(i);
    case 6 => RowIsEightSteps6(i);
    case 7 => RowIsEightSteps7(i);
    case 8 => RowIsEightSteps8(i);
    case 9 => RowIsEightSteps9(i);
    case 10 => RowIsEightSteps10(i);
    case 11 => RowIsEightSteps11(i);
    case 12 => RowIsEightSteps12(i);
    case 13 => RowIsEightSteps13(i);
    case 14 => RowIsEightSteps14(i);
    case _ => RowIsEightSteps15(i);
  }

  lemma RowIsEightSteps0(i: bv8)
    requires i >> 4 == 0
    ensures Row0(i) == Steps(i as bv32, 8)
  {
    match i
    case 0x00 => assert Steps(0x00, 8) == 0x00000000;
    case 0x01 => assert Steps(0x01, 8) == 0x77073096;
    case 0x02 => assert Steps(0x02, 8) == 0xEE0E612C;
    case 0x03 => assert Steps(0x03, 8) == 0x990951BA;
    case 0x04 => assert Steps(0x04, 8) == 0x076DC419;
    case 0x05 => assert Steps(0x05, 8) == 0x706AF48F;
    case 0x06 => assert Steps(0x06, 8) == 0xE963A535;
    case 0x07 => assert Steps(0x07, 8) == 0x9E6495A3;
    case 0x08 => assert Steps(0x08, 8) == 0x0EDB8832;
    case 0x09 => assert Steps(0x09, 8) == 0x79DCB8A4;
    case 0x0A => assert Steps(0x0A, 8) == 0xE0D5E91E;
    case 0x0B => assert Steps(0x0B, 8) == 0x97D2D988;
    case 0x0C => assert Steps(0x0C, 8) == 0x09B64C2B;
    case 0x0D => assert Steps(0x0D, 8) == 0x7EB17CBD;
    case 0x0E => assert Steps(0x0E, 8) == 0xE7B82D07;
    case _ => assert Steps(0x0F, 8) == 0x90BF1D91;
  }

  lemma RowIsEightSteps1(i: bv8)
    requires i >> 4 == 1
    ensures Row1(i) == Steps(i as bv32, 8)
  {
    match i
    case 0x10 => assert Steps(0x10, 8) == 0x1DB71064;
    case 0x11 => assert Steps(0x11, 8) == 0x6AB020F2;
    case 0x12 => assert Steps(0x12, 8) == 0xF3B97148;
    case 0x13 => assert Steps(0x13, 8) == 0x84BE41DE;
    case 0x14 => assert Steps(0x14, 8) == 0x1ADAD47D;
    case 0x15 => assert Steps(0x15, 8) == 0x6DDDE4EB;
    case 0x16 => assert Steps(0x16, 8) == 0xF4D4B551;
    case 0x17 => assert Steps(0x17, 8) == 0x83D385C7;
    case 0x18 => assert Steps(0x18, 8) == 0x136C9856;
    case 0x19 => assert Steps(0x19, 8) == 0x646BA8C0;
    case 0x1A => assert Steps(0x1A, 8) == 0xFD62F97A;
    case 0x1B => assert Steps(0x1B, 8) == 0x8A65C9EC;
    case 0x1C => assert Steps(0x1C, 8) == 0x14015C4F;
    case 0x1D => assert Steps(0x1D, 8) == 0x63066CD9;
    case 0x1E => assert Steps(0x1E, 8) == 0xFA0F3D63;
    case _ => assert Steps(0x1F, 8) == 0x8D080DF5;
  }

  lemma RowIsEightSteps2(i: bv8)
    requires i >> 4 == 2
    ensures Row2(i) == Steps(i as bv32, 8)
  {
    match i
    case 0x20 => assert Steps(0x20, 8) == 0x3B6E20C8;
    case 0x21 => assert Steps(0x21, 8) == 0x4C69105E;
    case 0x22 => assert Steps(0x22, 8) == 0xD56041E4;
    case 0x23 => assert Steps(0x23, 8) == 0xA2677172;
    case 0x24 => assert Steps(0x24, 8) == 0x3C03E4D1;
    case 0x25 => assert Steps(0x25, 8) == 0x4B04D447;
    case 0x26 => assert Steps(0x26, 8) == 0xD20D85FD;
    case 0x27 => assert Steps(0x27, 8) == 0xA50AB56B;
    case 0x28 => assert Steps(0x28, 8) == 0x35B5A8FA;
    case 0x29 => assert Steps(0x29, 8) == 0x42B2986C;
    case 0x2A => assert Steps(0x2A, 8) == 0xDBBBC9D6;
    case 0x2B => assert Steps(0x2B, 8) == 0xACBCF940;
    case 0x2C => assert Steps(0x2C, 8) == 0x32D86CE3;
    case 0x2D => assert Steps(0x2D, 8) == 0x45DF5C75;
    case 0x2E => assert Steps(0x2E, 8) == 0xDCD60DCF;
    case _ => assert Steps(0x2F, 8) == 0xABD13D59;
  }

  lemma RowIsEightSteps3(i: bv8)
    requires i >> 4 == 3
    ensures Row3(i) == Steps(i as bv32, 8)
  {
    match i
    case 0x30 => assert Steps(0x30, 8) == 0x26D930AC;
    case 0x31 => assert Steps(0x31, 8) == 0x51DE003A;
    case 0x32 => assert Steps(0x32, 8) == 0xC8D75180;
    case 0x33 => assert Steps(0x33, 8) == 0xBFD06116;
    case 0x34 => assert Steps(0x34, 8) == 0x21B4F4B5;
    case 0x35 => assert Steps(0x35, 8) == 0x56B3C423;
    case 0x36 => assert Steps(0x36, 8) == 0xCFBA9599;
    case 0x37 => assert Steps(0x37, 8) == 0xB8BDA50F;
    case 0x38 => assert Steps(0x38, 8) == 0x2802B89E;
    case 0x39 => assert Steps(0x39, 8) == 0x5F058808;
    case 0x3A => assert Steps(0x3A, 8) == 0xC60CD9B2;
    case 0x3B => assert Steps(0x3B, 8) == 0xB10BE924;
    case 0x3C => assert Steps(0x3C, 8) == 0x2F6F7C87;
    case 0x3D => assert Steps(0x3D, 8) == 0x58684C11;
    case 0x3E => assert Steps(0x3E, 8) == 0xC1611DAB;
    case _ => assert Steps(0x3F, 8) == 0xB6662D3D;
  }

  lemma RowIsEightSteps4(i: bv8)
    requires i >> 4 == 4
    ensures Row4(i) == Steps(i as bv32, 8)
  {
    match i
    case 0x40 => assert Steps(0x40, 8) == 0x76DC4190;
    case 0x41 => assert Steps(0x41, 8) == 0x01DB7106;
    case 0x42 => assert Steps(0x42, 8) == 0x98D220BC;
    case 0x43 => assert Steps(0x43, 8) == 0xEFD5102A;
    case 0x44 => assert Steps(0x44, 8) == 0x71B18589;
    case 0x45 => assert Steps(0x45, 8) == 0x06B6B51F;
    case 0x46 => assert Steps(0x46, 8) == 0x9FBFE4A5;
    case 0x47 => assert Steps(0x47, 8) == 0xE8B8D433;
    case 0x48 => assert Steps(0x48, 8) == 0x7807C9A2;
    case 0x49 => assert Steps(0x49, 8) == 0x0F00F934;
    case 0x4A => assert Steps(0x4A, 8) == 0x9609A88E;
    case 0x4B => assert Steps(0x4B, 8) == 0xE10E9818;
    case 0x4C => assert Steps(0x4C, 8) == 0x7F6A0DBB;
    case 0x4D => assert Steps(0x4D, 8) == 0x086D3D2D;
    case 0x4E => assert Steps(0x4E, 8) == 0x91646C97;
    case _ => assert Steps(0x4F, 8) == 0xE6635C01;
  }

  lemma RowIsEightSteps5(i: bv8)
    requires i >> 4 == 5
    ensures Row5(i) == Steps(i as bv32, 8)
  {
    match i
    case 0x50 => assert Steps(0x50, 8) == 0x6B6B51F4;
    case 0x51 => assert Steps(0x51, 8) == 0x1C6C6162;
    case 0x52 => assert Steps(0x52, 8) == 0x856530D8;
    case 0x53 => assert Steps(0x53, 8) == 0xF262004E;
    case 0x54 => assert Steps(0x54, 8) == 0x6C0695ED;
    case 0x55 => assert Steps(0x55, 8) == 0x1B01A57B;
    case 0x56 => assert Steps(0x56, 8) == 0x8208F4C1;
    case 0x57 => assert Steps(0x57, 8) == 0xF50FC457;
    case 0x58 => assert Steps(0x58, 8) == 0x65B0D9C6;
    case 0x59 => assert Steps(0x59, 8) == 0x12B7E950;
    case 0x5A => assert Steps(0x5A, 8) == 0x8BBEB8EA;
    case 0x5B => assert Steps(0x5B, 8) == 0xFCB9887C;
    case 0x5C => assert Steps(0x5C, 8) == 0x62DD1DDF;
    case 0x5D => assert Steps(0x5D, 8) == 0x15DA2D49;
    case 0x5E => assert Steps(0x5E, 8) == 0x8CD37CF3;
    case _ => assert Steps(0x5F, 8) == 0xFBD44C65;
  }

  lemma RowIsEightSteps6(i: bv8)
    requires i >> 4 == 6
    ensures Row6(i) == Steps(i as bv32, 8)
  {
    match i
    case 0x60 => assert Steps(0x60, 8) == 0x4DB26158;
    case 0x61 => assert Steps(0x61, 8) == 0x3AB551CE;
    case 0x62 => assert Steps(0x62, 8) == 0xA3BC0074;
    case 0x63 => assert Steps(0x63, 8) == 0xD4BB30E2;
    case 0x64 => assert Steps(0x64, 8) == 0x4ADFA541;
    case 0x65 => assert Steps(0x65, 8) == 0x3DD895D7;
    case 0x66 => assert Steps(0x66, 8) == 0xA4D1C46D;
    case 0x67 => assert Steps(0x67, 8) == 0xD3D6F4FB;
    case 0x68 => assert Steps(0x68, 8) == 0x4369E96A;
    case 0x69 => assert Steps(0x69, 8) == 0x346ED9FC;
    case 0x6A => assert Steps(0x6A, 8) == 0xAD678846;
    case 0x6B => assert Steps(0x6B, 8) == 0xDA60B8D0;
    case 0x6C => assert Steps(0x6C, 8) == 0x44042D73;
    case 0x6D => assert Steps(0x6D, 8) == 0x33031DE5;
    case 0x6E => assert Steps(0x6E, 8) == 0xAA0A4C5F;
    case _ => assert Steps(0x6F, 8) == 0xDD0D7CC9;
  }

  lemma RowIsEightSteps7(i: bv8)
    requires i >> 4 == 7
    ensures Row7(i) == Steps(i as bv32, 8)
  {
    match i
    case 0x70 => assert Steps(0x70, 8) == 0x5005713C;
    case 0x71 => assert Steps(0x71, 8) == 0x270241AA;
    case 0x72 => assert Steps(0x72, 8) == 0xBE0B1010;
    case 0x73 => assert Steps(0x73, 8) == 0xC90C2086;
    case 0x74 => assert Steps(0x74, 8) == 0x5768B525;
    case 0x75 => assert Steps(0x75, 8) == 0x206F85B3;
    case 0x76 => assert Steps(0x76, 8) == 0xB966D409;
    case 0x77 => assert Steps(0x77, 8) == 0xCE61E49F;
    case 0x78 => assert Steps(0x78, 8) == 0x5EDEF90E;
    case 0x79 => assert Steps(0x79, 8) == 0x29D9C998;
    case 0x7A => assert Steps(0x7A, 8) == 0xB0D09822;
    case 0x7B => assert Steps(0x7B, 8) == 0xC7D7A8B4;
    case 0x7C => assert Steps(0x7C, 8) == 0x59B33D17;
    case 0x7D => assert Steps(0x7D, 8) == 0x2EB40D81;
    case 0x7E => assert Steps(0x7E, 8) == 0xB7BD5C3B;
    case _ => assert Steps(0x7F, 8) == 0xC0BA6CAD;
  }

  lemma RowIsEightSteps8(i: bv8)
    requires i >> 4 == 8
    ensures Row8(i) == Steps(i as bv32, 8)
  {
    match i
    case 0x80 => assert Steps(0x80, 8) == 0xEDB88320;
    case 0x81 => assert Steps(0x81, 8) == 0x9ABFB3B6;
    case 0x82 => assert Steps(0x82, 8) == 0x03B6E20C;
    case 0x83 => assert Steps(0x83, 8) == 0x74B1D29A;
    case 0x84 => assert Steps(0x84, 8) == 0xEAD54739;
    case 0x85 => assert Steps(0x85, 8) == 0x9DD277AF;
    case 0x86 => assert Steps(0x86, 8) == 0x04DB2615;
    case 0x87 => assert Steps(0x87, 8) == 0x73DC1683;
    case 0x88 => assert Steps(0x88, 8) == 0xE3630B12;
    case 0x89 => assert Steps(0x89, 8) == 0x94643B84;
    case 0x8A => assert Steps(0x8A, 8) == 0x0D6D6A3E;
    case 0x8B => assert Steps(0x8B, 8) == 0x7A6A5AA8;
    case 0x8C => assert Steps(0x8C, 8) == 0xE40ECF0B;
    case 0x8D => assert Steps(0x8D, 8) == 0x9309FF9D;
    case 0x8E => assert Steps(0x8E, 8) == 0x0A00AE27;
    case _ => assert Steps(0x8F, 8) == 0x7D079EB1;
  }

  lemma RowIsEightSteps9(i: bv8)
    requires i >> 4 == 9
    ensures Row9(i) == Steps(i as bv32, 8)
  {
    match i
    case 0x90 => assert Steps(0x90, 8) == 0xF00F9344;
    case 0x91 => assert Steps(0x91, 8) == 0x8708A3D2;
    case 0x92 => assert Steps(0x92, 8) == 0x1E01F268;
    case 0x93 => assert Steps(0x93, 8) == 0x6906C2FE;
    case 0x94 => assert Steps(0x94, 8) == 0xF762575D;
    case 0x95 => assert Steps(0x95, 8) == 0x806567CB;
    case 0x96 => assert Steps(0x96, 8) == 0x196C3671;
    case 0x97 => assert Steps(0x97, 8) == 0x6E6B06E7;
    case 0x98 => assert Steps(0x98, 8) == 0xFED41B76;
    case 0x99 => assert Steps(0x99, 8) == 0x89D32BE0;
    case 0x9A => assert Steps(0x9A, 8) == 0x10DA7A5A;
    case 0x9B => assert Steps(0x9B, 8) == 0x67DD4ACC;
    case 0x9C => assert Steps(0x9C, 8) == 0xF9B9DF6F;
    case 0x9D => assert Steps(0x9D, 8) == 0x8EBEEFF9;
    case 0x9E => assert Steps(0x9E, 8) == 0x17B7BE43;
    case _ => assert Steps(0x9F, 8) == 0x60B08ED5;
  }

  lemma RowIsEightSteps10(i: bv8)
    requires i >> 4 == 10
    ensures Row10(i) == Steps(i as bv32, 8)
  {
    match i
    case 0xA0 => assert Steps(0xA0, 8) == 0xD6D6A3E8;
    case 0xA1 => assert Steps(0xA1, 8) == 0xA1D1937E;
    case 0xA2 => assert Steps(0xA2, 8) == 0x38D8C2C4;
    case 0xA3 => assert Steps(0xA3, 8) == 0x4FDFF252;
    case 0xA4 => assert Steps(0xA4, 8) == 0xD1BB67F1;
    case 0xA5 => assert Steps(0xA5, 8) == 0xA6BC5767;
    case 0xA6 => assert Steps(0xA6, 8) == 0x3FB506DD;
    case 0xA7 => assert Steps(0xA7, 8) == 0x48B2364B;
    case 0xA8 => assert Steps(0xA8, 8) == 0xD80D2BDA;
    case 0xA9 => assert Steps(0xA9, 8) == 0xAF0A1B4C;
    case 0xAA => assert Steps(0xAA, 8) == 0x36034AF6;
    case 0xAB => assert Steps(0xAB, 8) == 0x41047A60;
    case 0xAC => assert Steps(0xAC, 8) == 0xDF60EFC3;
    case 0xAD => assert Steps(0xAD, 8) == 0xA867DF55;
    case 0xAE => assert Steps(0xAE, 8) == 0x316E8EEF;
    case _ => assert Steps(0xAF, 8) == 0x4669BE79;
  }

  lemma RowIsEightSteps11(i: bv8)
    requires i >> 4 == 11
    ensures Row11(i) == Steps(i as bv32, 8)
  {
    match i
    case 0xB0 => assert Steps(0xB0, 8) == 0xCB61B38C;
    case 0xB1 => assert Steps(0xB1, 8) == 0xBC66831A;
    case 0xB2 => assert Steps(0xB2, 8) == 0x256FD2A0;
    case 0xB3 => assert Steps(0xB3, 8) == 0x5268E236;
    case 0xB4 => assert Steps(0xB4, 8) == 0xCC0C7795;
    case 0xB5 => assert Steps(0xB5, 8) == 0xBB0B4703;
    case 0xB6 => assert Steps(0xB6, 8) == 0x220216B9;
    case 0xB7 => assert Steps(0xB7, 8) == 0x5505262F;
    case 0xB8 => assert Steps(0xB8, 8) == 0xC5BA3BBE;
    case 0xB9 => assert Steps(0xB9, 8) == 0xB2BD0B28;
    case 0xBA => assert Steps(0xBA, 8) == 0x2BB45A92;
    case 0xBB => assert Steps(0xBB, 8) == 0x5CB36A04;
    case 0xBC => assert Steps(0xBC, 8) == 0xC2D7FFA7;
    case 0xBD => assert Steps(0xBD, 8) == 0xB5D0CF31;
    case 0xBE => assert Steps(0xBE, 8) == 0x2CD99E8B;
    case _ => assert Steps(0xBF, 8) == 0x5BDEAE1D;
  }

  lemma RowIsEightSteps12(i: bv8)
    requires i >> 4 == 12
    ensures Row12(i) == Steps(i as bv32, 8)
  {
    match i
    case 0xC0 => assert Steps(0xC0, 8) == 0x9B64C2B0;
    case 0xC1 => assert Steps(0xC1, 8) == 0xEC63F226;
    case 0xC2 => assert Steps(0xC2, 8) == 0x756AA39C;
    case 0xC3 => assert Steps(0xC3, 8) == 0x026D930A;
    case 0xC4 => assert Steps(0xC4, 8) == 0x9C0906A9;
    case 0xC5 => assert Steps(0xC5, 8) == 0xEB0E363F;
    case 0xC6 => assert Steps(0xC6, 8) == 0x72076785;
    case 0xC7 => assert Steps(0xC7, 8) == 0x05005713;
    case 0xC8 => assert Steps(0xC8, 8) == 0x95BF4A82;
    case 0xC9 => assert Steps(0xC9, 8) == 0xE2B87A14;
    case 0xCA => assert Steps(0xCA, 8) == 0x7BB12BAE;
    case 0xCB => assert Steps(0xCB, 8) == 0x0CB61B38;
    case 0xCC => assert Steps(0xCC, 8) == 0x92D28E9B;
    case 0xCD => assert Steps(0xCD, 8) == 0xE5D5BE0D;
    case 0xCE => assert Steps(0xCE, 8) == 0x7CDCEFB7;
    case _ => assert Steps(0xCF, 8) == 0x0BDBDF21;
  }

  lemma RowIsEightSteps13(i: bv8)
    requires i >> 4 == 13
    ensures Row13(i) == Steps(i as bv32, 8)
  {
    match i
    case 0xD0 => assert Steps(0xD0, 8) == 0x86D3D2D4;
    case 0xD1 => assert Steps(0xD1, 8) == 0xF1D4E242;
    case 0xD2 => assert Steps(0xD2, 8) == 0x68DDB3F8;
    case 0xD3 => assert Steps(0xD3, 8) == 0x1FDA836E;
    case 0xD4 => assert Steps(0xD4, 8) == 0x81BE16CD;
    case 0xD5 => assert Steps(0xD5, 8) == 0xF6B9265B;
    case 0xD6 => assert Steps(0xD6, 8) == 0x6FB077E1;
    case 0xD7 => assert Steps(0xD7, 8) == 0x18B74777;
    case 0xD8 => assert Steps(0xD8, 8) == 0x88085AE6;
    case 0xD9 => assert Steps(0xD9, 8) == 0xFF0F6A70;
    case 0xDA => assert Steps(0xDA, 8) == 0x66063BCA;
    case 0xDB => assert Steps(0xDB, 8) == 0x11010B5C;
    case 0xDC => assert Steps(0xDC, 8) == 0x8F659EFF;
    case 0xDD => assert Steps(0xDD, 8) == 0xF862AE69;
    case 0xDE => assert Steps(0xDE, 8) == 0x616BFFD3;
    case _ => assert Steps(0xDF, 8) == 0x166CCF45;
  }

  lemma RowIsEightSteps14(i: bv8)
    requires i >> 4 == 14
    ensures Row14(i) == Steps(i as bv32, 8)
  {
    match i
    case 0xE0 => assert Steps(0xE0, 8) == 0xA00AE278;
    case 0xE1 => assert Steps(0xE1, 8) == 0xD70DD2EE;
    case 0xE2 => assert Steps(0xE2, 8) == 0x4E048354;
    case 0xE3 => assert Steps(0xE3, 8) == 0x3903B3C2;
    case 0xE4 => assert Steps(0xE4, 8) == 0xA7672661;
    case 0xE5 => assert Steps(0xE5, 8) == 0xD06016F7;
    case 0xE6 => assert Steps(0xE6, 8) == 0x4969474D;
    case 0xE7 => assert Steps(0xE7, 8) == 0x3E6E77DB;
    case 0xE8 => assert Steps(0xE8, 8) == 0xAED16A4A;
    case 0xE9 => assert Steps(0xE9, 8) == 0xD9D65ADC;
    case 0xEA => assert Steps(0xEA, 8) == 0x40DF0B66;
    case 0xEB => assert Steps(0xEB, 8) == 0x37D83BF0;
    case 0xEC => assert Steps(0xEC, 8) == 0xA9BCAE53;
    case 0xED => assert Steps(0xED, 8) == 0xDEBB9EC5;
    case 0xEE => assert Steps(0xEE, 8) == 0x47B2CF7F;
    case _ => assert Steps(0xEF, 8) == 0x30B5FFE9;
  }

  lemma RowIsEightSteps15(i: bv8)
    requires i >> 4 == 15
    ensures Row15(i) == Steps(i as bv32, 8)
  {
    match i
    case 0xF0 => assert Steps(0xF0, 8) == 0xBDBDF21C;
    case 0xF1 => assert Steps(0xF1, 8) == 0xCABAC28A;
    case 0xF2 => assert Steps(0xF2, 8) == 0x53B39330;
    case 0xF3 => assert Steps(0xF3, 8) == 0x24B4A3A6;
    case 0xF4 => assert Steps(0xF4, 8) == 0xBAD03605;
    case 0xF5 => assert Steps(0xF5, 8) == 0xCDD70693;
    case 0xF6 => assert Steps(0xF6, 8) == 0x54DE5729;
    case 0xF7 => assert Steps(0xF7, 8) == 0x23D967BF;
    case 0xF8 => assert Steps(0xF8, 8) == 0xB3667A2E;
    case 0xF9 => assert Steps(0xF9, 8) == 0xC4614AB8;
    case 0xFA => assert Steps(0xFA, 8) == 0x5D681B02;
    case 0xFB => assert Steps(0xFB, 8) == 0x2A6F2B94;
    case 0xFC => assert Steps(0xFC, 8) == 0xB40BBE37;
    case 0xFD => assert Steps(0xFD, 8) == 0xC30C8EA1;
    case 0xFE => assert Steps(0xFE, 8) == 0x5A05DF1B;
    case _ => assert Steps(0xFF, 8) == 0x2D02EF8D;
  }
}
