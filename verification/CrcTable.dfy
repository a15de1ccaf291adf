/** The 256-entry CRC table of main/system/crc.c, as a function of the table index.

The rows hold the entries in the order of the source: entry i is column `i & 0xF` of row `i >> 4`.
What the entries mean is stated in `Crc.TableIsPolynomial`.
*/
module CrcTable {

  function Row0(column: bv8): bv16 {
    match column
    case 0 => 0x0000
    case 1 => 0x1021
    case 2 => 0x2042
    case 3 => 0x3063
    case 4 => 0x4084
    case 5 => 0x50a5
    case 6 => 0x60c6
    case 7 => 0x70e7
    case 8 => 0x8108
    case 9 => 0x9129
    case 10 => 0xa14a
    case 11 => 0xb16b
    case 12 => 0xc18c
    case 13 => 0xd1ad
    case 14 => 0xe1ce
    case _ => 0xf1ef
  }

  function Row1(column: bv8): bv16 {
    match column
    case 0 => 0x1231
    case 1 => 0x0210
    case 2 => 0x3273
    case 3 => 0x2252
    case 4 => 0x52b5
    case 5 => 0x4294
    case 6 => 0x72f7
    case 7 => 0x62d6
    case 8 => 0x9339
    case 9 => 0x8318
    case 10 => 0xb37b
    case 11 => 0xa35a
    case 12 => 0xd3bd
    case 13 => 0xc39c
    case 14 => 0xf3ff
    case _ => 0xe3de
  }

  function Row2(column: bv8): bv16 {
    match column
    case 0 => 0x2462
    case 1 => 0x3443
    case 2 => 0x0420
    case 3 => 0x1401
    case 4 => 0x64e6
    case 5 => 0x74c7
    case 6 => 0x44a4
    case 7 => 0x5485
    case 8 => 0xa56a
    case 9 => 0xb54b
    case 10 => 0x8528
    case 11 => 0x9509
    case 12 => 0xe5ee
    case 13 => 0xf5cf
    case 14 => 0xc5ac
    case _ => 0xd58d
  }

  function Row3(column: bv8): bv16 {
    match column
    case 0 => 0x3653
    case 1 => 0x2672
    case 2 => 0x1611
    case 3 => 0x0630
    case 4 => 0x76d7
    case 5 => 0x66f6
    case 6 => 0x5695
    case 7 => 0x46b4
    case 8 => 0xb75b
    case 9 => 0xa77a
    case 10 => 0x9719
    case 11 => 0x8738
    case 12 => 0xf7df
    case 13 => 0xe7fe
    case 14 => 0xd79d
    case _ => 0xc7bc
  }

  function Row4(column: bv8): bv16 {
    match column
    case 0 => 0x48c4
    case 1 => 0x58e5
    case 2 => 0x6886
    case 3 => 0x78a7
    case 4 => 0x0840
    case 5 => 0x1861
    case 6 => 0x2802
    case 7 => 0x3823
    case 8 => 0xc9cc
    case 9 => 0xd9ed
    case 10 => 0xe98e
    case 11 => 0xf9af
    case 12 => 0x8948
    case 13 => 0x9969
    case 14 => 0xa90a
    case _ => 0xb92b
  }

  function Row5(column: bv8): bv16 {
    match column
    case 0 => 0x5af5
    case 1 => 0x4ad4
    case 2 => 0x7ab7
    case 3 => 0x6a96
    case 4 => 0x1a71
    case 5 => 0x0a50
    case 6 => 0x3a33
    case 7 => 0x2a12
    case 8 => 0xdbfd
    case 9 => 0xcbdc
    case 10 => 0xfbbf
    case 11 => 0xeb9e
    case 12 => 0x9b79
    case 13 => 0x8b58
    case 14 => 0xbb3b
    case _ => 0xab1a
  }

  function Row6(column: bv8): bv16 {
    match column
    case 0 => 0x6ca6
    case 1 => 0x7c87
    case 2 => 0x4ce4
    case 3 => 0x5cc5
    case 4 => 0x2c22
    case 5 => 0x3c03
    case 6 => 0x0c60
    case 7 => 0x1c41
    case 8 => 0xedae
    case 9 => 0xfd8f
    case 10 => 0xcdec
    case 11 => 0xddcd
    case 12 => 0xad2a
    case 13 => 0xbd0b
    case 14 => 0x8d68
    case _ => 0x9d49
  }

  function Row7(column: bv8): bv16 {
    match column
    case 0 => 0x7e97
    case 1 => 0x6eb6
    case 2 => 0x5ed5
    case 3 => 0x4ef4
    case 4 => 0x3e13
    case 5 => 0x2e32
    case 6 => 0x1e51
    case 7 => 0x0e70
    case 8 => 0xff9f
    case 9 => 0xefbe
    case 10 => 0xdfdd
    case 11 => 0xcffc
    case 12 => 0xbf1b
    case 13 => 0xaf3a
    case 14 => 0x9f59
    case _ => 0x8f78
  }

  function Row8(column: bv8): bv16 {
    match column
    case 0 => 0x9188
    case 1 => 0x81a9
    case 2 => 0xb1ca
    case 3 => 0xa1eb
    case 4 => 0xd10c
    case 5 => 0xc12d
    case 6 => 0xf14e
    case 7 => 0xe16f
    case 8 => 0x1080
    case 9 => 0x00a1
    case 10 => 0x30c2
    case 11 => 0x20e3
    case 12 => 0x5004
    case 13 => 0x4025
    case 14 => 0x7046
    case _ => 0x6067
  }

  function Row9(column: bv8): bv16 {
    match column
    case 0 => 0x83b9
    case 1 => 0x9398
    case 2 => 0xa3fb
    case 3 => 0xb3da
    case 4 => 0xc33d
    case 5 => 0xd31c
    case 6 => 0xe37f
    case 7 => 0xf35e
    case 8 => 0x02b1
    case 9 => 0x1290
    case 10 => 0x22f3
    case 11 => 0x32d2
    case 12 => 0x4235
    case 13 => 0x5214
    case 14 => 0x6277
    case _ => 0x7256
  }

  function RowA(column: bv8): bv16 {
    match column
    case 0 => 0xb5ea
    case 1 => 0xa5cb
    case 2 => 0x95a8
    case 3 => 0x8589
    case 4 => 0xf56e
    case 5 => 0xe54f
    case 6 => 0xd52c
    case 7 => 0xc50d
    case 8 => 0x34e2
    case 9 => 0x24c3
    case 10 => 0x14a0
    case 11 => 0x0481
    case 12 => 0x7466
    case 13 => 0x6447
    case 14 => 0x5424
    case _ => 0x4405
  }

  function RowB(column: bv8): bv16 {
    match column
    case 0 => 0xa7db
    case 1 => 0xb7fa
    case 2 => 0x8799
    case 3 => 0x97b8
    case 4 => 0xe75f
    case 5 => 0xf77e
    case 6 => 0xc71d
    case 7 => 0xd73c
    case 8 => 0x26d3
    case 9 => 0x36f2
    case 10 => 0x0691
    case 11 => 0x16b0
    case 12 => 0x6657
    case 13 => 0x7676
    case 14 => 0x4615
    case _ => 0x5634
  }

  function RowC(column: bv8): bv16 {
    match column
    case 0 => 0xd94c
    case 1 => 0xc96d
    case 2 => 0xf90e
    case 3 => 0xe92f
    case 4 => 0x99c8
    case 5 => 0x89e9
    case 6 => 0xb98a
    case 7 => 0xa9ab
    case 8 => 0x5844
    case 9 => 0x4865
    case 10 => 0x7806
    case 11 => 0x6827
    case 12 => 0x18c0
    case 13 => 0x08e1
    case 14 => 0x3882
    case _ => 0x28a3
  }

  function RowD(column: bv8): bv16 {
    match column
    case 0 => 0xcb7d
    case 1 => 0xdb5c
    case 2 => 0xeb3f
    case 3 => 0xfb1e
    case 4 => 0x8bf9
    case 5 => 0x9bd8
    case 6 => 0xabbb
    case 7 => 0xbb9a
    case 8 => 0x4a75
    case 9 => 0x5a54
    case 10 => 0x6a37
    case 11 => 0x7a16
    case 12 => 0x0af1
    case 13 => 0x1ad0
    case 14 => 0x2ab3
    case _ => 0x3a92
  }

  function RowE(column: bv8): bv16 {
    match column
    case 0 => 0xfd2e
    case 1 => 0xed0f
    case 2 => 0xdd6c
    case 3 => 0xcd4d
    case 4 => 0xbdaa
    case 5 => 0xad8b
    case 6 => 0x9de8
    case 7 => 0x8dc9
    case 8 => 0x7c26
    case 9 => 0x6c07
    case 10 => 0x5c64
    case 11 => 0x4c45
    case 12 => 0x3ca2
    case 13 => 0x2c83
    case 14 => 0x1ce0
    case _ => 0x0cc1
  }

  function RowF(column: bv8): bv16 {
    match column
    case 0 => 0xef1f
    case 1 => 0xff3e
    case 2 => 0xcf5d
    case 3 => 0xdf7c
    case 4 => 0xaf9b
    case 5 => 0xbfba
    case 6 => 0x8fd9
    case 7 => 0x9ff8
    case 8 => 0x6e17
    case 9 => 0x7e36
    case 10 => 0x4e55
    case 11 => 0x5e74
    case 12 => 0x2e93
    case 13 => 0x3eb2
    case 14 => 0x0ed1
    case _ => 0x1ef0
  }

  /** `crc_table[i]`. */
  function TableEntry(i: bv8): bv16 {
    match i >> 4
    case 0 => Row0(i & 0xF)
    case 1 => Row1(i & 0xF)
    case 2 => Row2(i & 0xF)
    case 3 => Row3(i & 0xF)
    case 4 => Row4(i & 0xF)
    case 5 => Row5(i & 0xF)
    case 6 => Row6(i & 0xF)
    case 7 => Row7(i & 0xF)
    case 8 => Row8(i & 0xF)
    case 9 => Row9(i & 0xF)
    case 10 => RowA(i & 0xF)
    case 11 => RowB(i & 0xF)
    case 12 => RowC(i & 0xF)
    case 13 => RowD(i & 0xF)
    case 14 => RowE(i & 0xF)
    case _ => RowF(i & 0xF)
  }
}
