/** The checksum table of lib/crc32.c, a row of sixteen entries at a time. */
module CrcTable {
  function Row0(k: bv32): bv32 {
    if k == 0 then 0x00000000 else if k == 1 then 0x77073096 else
    if k == 2 then 0xee0e612c else if k == 3 then 0x990951ba else
    if k == 4 then 0x076dc419 else if k == 5 then 0x706af48f else
    if k == 6 then 0xe963a535 else if k == 7 then 0x9e6495a3 else
    if k == 8 then 0x0edb8832 else if k == 9 then 0x79dcb8a4 else
    if k == 10 then 0xe0d5e91e else if k == 11 then 0x97d2d988 else
    if k == 12 then 0x09b64c2b else if k == 13 then 0x7eb17cbd else if k == 14 then 0xe7b82d07 else 0x90bf1d91
  }

  function Row1(k: bv32): bv32 {
    if k == 0 then 0x1db71064 else if k == 1 then 0x6ab020f2 else
    if k == 2 then 0xf3b97148 else if k == 3 then 0x84be41de else
    if k == 4 then 0x1adad47d else if k == 5 then 0x6ddde4eb else
    if k == 6 then 0xf4d4b551 else if k == 7 then 0x83d385c7 else
    if k == 8 then 0x136c9856 else if k == 9 then 0x646ba8c0 else
    if k == 10 then 0xfd62f97a else if k == 11 then 0x8a65c9ec else
    if k == 12 then 0x14015c4f else if k == 13 then 0x63066cd9 else if k == 14 then 0xfa0f3d63 else 0x8d080df5
  }

  function Row2(k: bv32): bv32 {
    if k == 0 then 0x3b6e20c8 else if k == 1 then 0x4c69105e else
    if k == 2 then 0xd56041e4 else if k == 3 then 0xa2677172 else
    if k == 4 then 0x3c03e4d1 else if k == 5 then 0x4b04d447 else
    if k == 6 then 0xd20d85fd else if k == 7 then 0xa50ab56b else
    if k == 8 then 0x35b5a8fa else if k == 9 then 0x42b2986c else
    if k == 10 then 0xdbbbc9d6 else if k == 11 then 0xacbcf940 else
    if k == 12 then 0x32d86ce3 else if k == 13 then 0x45df5c75 else if k == 14 then 0xdcd60dcf else 0xabd13d59
  }

  function Row3(k: bv32): bv32 {
    if k == 0 then 0x26d930ac else if k == 1 then 0x51de003a else
    if k == 2 then 0xc8d75180 else if k == 3 then 0xbfd06116 else
    if k == 4 then 0x21b4f4b5 else if k == 5 then 0x56b3c423 else
    if k == 6 then 0xcfba9599 else if k == 7 then 0xb8bda50f else
    if k == 8 then 0x2802b89e else if k == 9 then 0x5f058808 else
    if k == 10 then 0xc60cd9b2 else if k == 11 then 0xb10be924 else
    if k == 12 then 0x2f6f7c87 else if k == 13 then 0x58684c11 else if k == 14 then 0xc1611dab else 0xb6662d3d
  }

  function Row4(k: bv32): bv32 {
    if k == 0 then 0x76dc4190 else if k == 1 then 0x01db7106 else
    if k == 2 then 0x98d220bc else if k == 3 then 0xefd5102a else
    if k == 4 then 0x71b18589 else if k == 5 then 0x06b6b51f else
    if k == 6 then 0x9fbfe4a5 else if k == 7 then 0xe8b8d433 else
    if k == 8 then 0x7807c9a2 else if k == 9 then 0x0f00f934 else
    if k == 10 then 0x9609a88e else if k == 11 then 0xe10e9818 else
    if k == 12 then 0x7f6a0dbb else if k == 13 then 0x086d3d2d else if k == 14 then 0x91646c97 else 0xe6635c01
  }

  function Row5(k: bv32): bv32 {
    if k == 0 then 0x6b6b51f4 else if k == 1 then 0x1c6c6162 else
    if k == 2 then 0x856530d8 else if k == 3 then 0xf262004e else
    if k == 4 then 0x6c0695ed else if k == 5 then 0x1b01a57b else
    if k == 6 then 0x8208f4c1 else if k == 7 then 0xf50fc457 else
    if k == 8 then 0x65b0d9c6 else if k == 9 then 0x12b7e950 else
    if k == 10 then 0x8bbeb8ea else if k == 11 then 0xfcb9887c else
    if k == 12 then 0x62dd1ddf else if k == 13 then 0x15da2d49 else if k == 14 then 0x8cd37cf3 else 0xfbd44c65
  }

  function Row6(k: bv32): bv32 {
    if k == 0 then 0x4db26158 else if k == 1 then 0x3ab551ce else
    if k == 2 then 0xa3bc0074 else if k == 3 then 0xd4bb30e2 else
    if k == 4 then 0x4adfa541 else if k == 5 then 0x3dd895d7 else
    if k == 6 then 0xa4d1c46d else if k == 7 then 0xd3d6f4fb else
    if k == 8 then 0x4369e96a else if k == 9 then 0x346ed9fc else
    if k == 10 then 0xad678846 else if k == 11 then 0xda60b8d0 else
    if k == 12 then 0x44042d73 else if k == 13 then 0x33031de5 else if k == 14 then 0xaa0a4c5f else 0xdd0d7cc9
  }

  function Row7(k: bv32): bv32 {
    if k == 0 then 0x5005713c else if k == 1 then 0x270241aa else
    if k == 2 then 0xbe0b1010 else if k == 3 then 0xc90c2086 else
    if k == 4 then 0x5768b525 else if k == 5 then 0x206f85b3 else
    if k == 6 then 0xb966d409 else if k == 7 then 0xce61e49f else
    if k == 8 then 0x5edef90e else if k == 9 then 0x29d9c998 else
    if k == 10 then 0xb0d09822 else if k == 11 then 0xc7d7a8b4 else
    if k == 12 then 0x59b33d17 else if k == 13 then 0x2eb40d81 else if k == 14 then 0xb7bd5c3b else 0xc0ba6cad
  }

  function Row8(k: bv32): bv32 {
    if k == 0 then 0xedb88320 else if k == 1 then 0x9abfb3b6 else
    if k == 2 then 0x03b6e20c else if k == 3 then 0x74b1d29a else
    if k == 4 then 0xead54739 else if k == 5 then 0x9dd277af else
    if k == 6 then 0x04db2615 else if k == 7 then 0x73dc1683 else
    if k == 8 then 0xe3630b12 else if k == 9 then 0x94643b84 else
    if k == 10 then 0x0d6d6a3e else if k == 11 then 0x7a6a5aa8 else
    if k == 12 then 0xe40ecf0b else if k == 13 then 0x9309ff9d else if k == 14 then 0x0a00ae27 else 0x7d079eb1
  }

  function Row9(k: bv32): bv32 {
    if k == 0 then 0xf00f9344 else if k == 1 then 0x8708a3d2 else
    if k == 2 then 0x1e01f268 else if k == 3 then 0x6906c2fe else
    if k == 4 then 0xf762575d else if k == 5 then 0x806567cb else
    if k == 6 then 0x196c3671 else if k == 7 then 0x6e6b06e7 else
    if k == 8 then 0xfed41b76 else if k == 9 then 0x89d32be0 else
    if k == 10 then 0x10da7a5a else if k == 11 then 0x67dd4acc else
    if k == 12 then 0xf9b9df6f else if k == 13 then 0x8ebeeff9 else if k == 14 then 0x17b7be43 else 0x60b08ed5
  }

  function RowA(k: bv32): bv32 {
    if k == 0 then 0xd6d6a3e8 else if k == 1 then 0xa1d1937e else
    if k == 2 then 0x38d8c2c4 else if k == 3 then 0x4fdff252 else
    if k == 4 then 0xd1bb67f1 else if k == 5 then 0xa6bc5767 else
    if k == 6 then 0x3fb506dd else if k == 7 then 0x48b2364b else
    if k == 8 then 0xd80d2bda else if k == 9 then 0xaf0a1b4c else
    if k == 10 then 0x36034af6 else if k == 11 then 0x41047a60 else
    if k == 12 then 0xdf60efc3 else if k == 13 then 0xa867df55 else if k == 14 then 0x316e8eef else 0x4669be79
  }

  function RowB(k: bv32): bv32 {
    if k == 0 then 0xcb61b38c else if k == 1 then 0xbc66831a else
    if k == 2 then 0x256fd2a0 else if k == 3 then 0x5268e236 else
    if k == 4 then 0xcc0c7795 else if k == 5 then 0xbb0b4703 else
    if k == 6 then 0x220216b9 else if k == 7 then 0x5505262f else
    if k == 8 then 0xc5ba3bbe else if k == 9 then 0xb2bd0b28 else
    if k == 10 then 0x2bb45a92 else if k == 11 then 0x5cb36a04 else
    if k == 12 then 0xc2d7ffa7 else if k == 13 then 0xb5d0cf31 else if k == 14 then 0x2cd99e8b else 0x5bdeae1d
  }

  function RowC(k: bv32): bv32 {
    if k == 0 then 0x9b64c2b0 else if k == 1 then 0xec63f226 else
    if k == 2 then 0x756aa39c else if k == 3 then 0x026d930a else
    if k == 4 then 0x9c0906a9 else if k == 5 then 0xeb0e363f else
    if k == 6 then 0x72076785 else if k == 7 then 0x05005713 else
    if k == 8 then 0x95bf4a82 else if k == 9 then 0xe2b87a14 else
    if k == 10 then 0x7bb12bae else if k == 11 then 0x0cb61b38 else
    if k == 12 then 0x92d28e9b else if k == 13 then 0xe5d5be0d else if k == 14 then 0x7cdcefb7 else 0x0bdbdf21
  }

  function RowD(k: bv32): bv32 {
    if k == 0 then 0x86d3d2d4 else if k == 1 then 0xf1d4e242 else
    if k == 2 then 0x68ddb3f8 else if k == 3 then 0x1fda836e else
    if k == 4 then 0x81be16cd else if k == 5 then 0xf6b9265b else
    if k == 6 then 0x6fb077e1 else if k == 7 then 0x18b74777 else
    if k == 8 then 0x88085ae6 else if k == 9 then 0xff0f6a70 else
    if k == 10 then 0x66063bca else if k == 11 then 0x11010b5c else
    if k == 12 then 0x8f659eff else if k == 13 then 0xf862ae69 else if k == 14 then 0x616bffd3 else 0x166ccf45
  }

  function RowE(k: bv32): bv32 {
    if k == 0 then 0xa00ae278 else if k == 1 then 0xd70dd2ee else
    if k == 2 then 0x4e048354 else if k == 3 then 0x3903b3c2 else
    if k == 4 then 0xa7672661 else if k == 5 then 0xd06016f7 else
    if k == 6 then 0x4969474d else if k == 7 then 0x3e6e77db else
    if k == 8 then 0xaed16a4a else if k == 9 then 0xd9d65adc else
    if k == 10 then 0x40df0b66 else if k == 11 then 0x37d83bf0 else
    if k == 12 then 0xa9bcae53 else if k == 13 then 0xdebb9ec5 else if k == 14 then 0x47b2cf7f else 0x30b5ffe9
  }

  function RowF(k: bv32): bv32 {
    if k == 0 then 0xbdbdf21c else if k == 1 then 0xcabac28a else
    if k == 2 then 0x53b39330 else if k == 3 then 0x24b4a3a6 else
    if k == 4 then 0xbad03605 else if k == 5 then 0xcdd70693 else
    if k == 6 then 0x54de5729 else if k == 7 then 0x23d967bf else
    if k == 8 then 0xb3667a2e else if k == 9 then 0xc4614ab8 else
    if k == 10 then 0x5d681b02 else if k == 11 then 0x2a6f2b94 else
    if k == 12 then 0xb40bbe37 else if k == 13 then 0xc30c8ea1 else if k == 14 then 0x5a05df1b else 0x2d02ef8d
  }

  /** crc32_table[i]. */
  function Entry(i: bv32): bv32
    requires i < 256
  {
    var k, r := i & 0xf, i >> 4;
    if r == 0 then Row0(k) else
    if r == 1 then Row1(k) else
    if r == 2 then Row2(k) else
    if r == 3 then Row3(k) else
    if r == 4 then Row4(k) else
    if r == 5 then Row5(k) else
    if r == 6 then Row6(k) else
    if r == 7 then Row7(k) else
    if r == 8 then Row8(k) else
    if r == 9 then Row9(k) else
    if r == 10 then RowA(k) else
    if r == 11 then RowB(k) else
    if r == 12 then RowC(k) else
    if r == 13 then RowD(k) else
    if r == 14 then RowE(k) else
    RowF(k)
  }
}
