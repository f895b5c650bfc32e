/** The rows of `crc16tab`, sixteen entries each. */
module SmartbusTable {

  /** `crc16tab[i]`. */
  function Crc16Tab(i: bv8): bv16 {
    var j := i & 0x0f;
    match i >> 4
    case 0x0 => Row0(j)
    case 0x1 => Row1(j)
    case 0x2 => Row2(j)
    case 0x3 => Row3(j)
    case 0x4 => Row4(j)
    case 0x5 => Row5(j)
    case 0x6 => Row6(j)
    case 0x7 => Row7(j)
    case 0x8 => Row8(j)
    case 0x9 => Row9(j)
    case 0xa => RowA(j)
    case 0xb => RowB(j)
    case 0xc => RowC(j)
    case 0xd => RowD(j)
    case 0xe => RowE(j)
    case _ => RowF(j)
  }

  function Row0(j: bv8): bv16 {
    match j
    case 0x0 => 0x0000 case 0x1 => 0x1021 case 0x2 => 0x2042 case 0x3 => 0x3063
    case 0x4 => 0x4084 case 0x5 => 0x50a5 case 0x6 => 0x60c6 case 0x7 => 0x70e7
    case 0x8 => 0x8108 case 0x9 => 0x9129 case 0xa => 0xa14a case 0xb => 0xb16b
    case 0xc => 0xc18c case 0xd => 0xd1ad case 0xe => 0xe1ce case _ => 0xf1ef
  }

  function Row1(j: bv8): bv16 {
    match j
    case 0x0 => 0x1231 case 0x1 => 0x0210 case 0x2 => 0x3273 case 0x3 => 0x2252
    case 0x4 => 0x52b5 case 0x5 => 0x4294 case 0x6 => 0x72f7 case 0x7 => 0x62d6
    case 0x8 => 0x9339 case 0x9 => 0x8318 case 0xa => 0xb37b case 0xb => 0xa35a
    case 0xc => 0xd3bd case 0xd => 0xc39c case 0xe => 0xf3ff case _ => 0xe3de
  }

  function Row2(j: bv8): bv16 {
    match j
    case 0x0 => 0x2462 case 0x1 => 0x3443 case 0x2 => 0x0420 case 0x3 => 0x1401
    case 0x4 => 0x64e6 case 0x5 => 0x74c7 case 0x6 => 0x44a4 case 0x7 => 0x5485
    case 0x8 => 0xa56a case 0x9 => 0xb54b case 0xa => 0x8528 case 0xb => 0x9509
    case 0xc => 0xe5ee case 0xd => 0xf5cf case 0xe => 0xc5ac case _ => 0xd58d
  }

  function Row3(j: bv8): bv16 {
    match j
    case 0x0 => 0x3653 case 0x1 => 0x2672 case 0x2 => 0x1611 case 0x3 => 0x0630
    case 0x4 => 0x76d7 case 0x5 => 0x66f6 case 0x6 => 0x5695 case 0x7 => 0x46b4
    case 0x8 => 0xb75b case 0x9 => 0xa77a case 0xa => 0x9719 case 0xb => 0x8738
    case 0xc => 0xf7df case 0xd => 0xe7fe case 0xe => 0xd79d case _ => 0xc7bc
  }

  function Row4(j: bv8): bv16 {
    match j
    case 0x0 => 0x48c4 case 0x1 => 0x58e5 case 0x2 => 0x6886 case 0x3 => 0x78a7
    case 0x4 => 0x0840 case 0x5 => 0x1861 case 0x6 => 0x2802 case 0x7 => 0x3823
    case 0x8 => 0xc9cc case 0x9 => 0xd9ed case 0xa => 0xe98e case 0xb => 0xf9af
    case 0xc => 0x8948 case 0xd => 0x9969 case 0xe => 0xa90a case _ => 0xb92b
  }

  function Row5(j: bv8): bv16 {
    match j
    case 0x0 => 0x5af5 case 0x1 => 0x4ad4 case 0x2 => 0x7ab7 case 0x3 => 0x6a96
    case 0x4 => 0x1a71 case 0x5 => 0x0a50 case 0x6 => 0x3a33 case 0x7 => 0x2a12
    case 0x8 => 0xdbfd case 0x9 => 0xcbdc case 0xa => 0xfbbf case 0xb => 0xeb9e
    case 0xc => 0x9b79 case 0xd => 0x8b58 case 0xe => 0xbb3b case _ => 0xab1a
  }

  function Row6(j: bv8): bv16 {
    match j
    case 0x0 => 0x6ca6 case 0x1 => 0x7c87 case 0x2 => 0x4ce4 case 0x3 => 0x5cc5
    case 0x4 => 0x2c22 case 0x5 => 0x3c03 case 0x6 => 0x0c60 case 0x7 => 0x1c41
    case 0x8 => 0xedae case 0x9 => 0xfd8f case 0xa => 0xcdec case 0xb => 0xddcd
    case 0xc => 0xad2a case 0xd => 0xbd0b case 0xe => 0x8d68 case _ => 0x9d49
  }

  function Row7(j: bv8): bv16 {
    match j
    case 0x0 => 0x7e97 case 0x1 => 0x6eb6 case 0x2 => 0x5ed5 case 0x3 => 0x4ef4
    case 0x4 => 0x3e13 case 0x5 => 0x2e32 case 0x6 => 0x1e51 case 0x7 => 0x0e70
    case 0x8 => 0xff9f case 0x9 => 0xefbe case 0xa => 0xdfdd case 0xb => 0xcffc
    case 0xc => 0xbf1b case 0xd => 0xaf3a case 0xe => 0x9f59 case _ => 0x8f78
  }

  function Row8(j: bv8): bv16 {
    match j
    case 0x0 => 0x9188 case 0x1 => 0x81a9 case 0x2 => 0xb1ca case 0x3 => 0xa1eb
    case 0x4 => 0xd10c case 0x5 => 0xc12d case 0x6 => 0xf14e case 0x7 => 0xe16f
    case 0x8 => 0x1080 case 0x9 => 0x00a1 case 0xa => 0x30c2 case 0xb => 0x20e3
    case 0xc => 0x5004 case 0xd => 0x4025 case 0xe => 0x7046 case _ => 0x6067
  }

  function Row9(j: bv8): bv16 {
    match j
    case 0x0 => 0x83b9 case 0x1 => 0x9398 case 0x2 => 0xa3fb case 0x3 => 0xb3da
    case 0x4 => 0xc33d case 0x5 => 0xd31c case 0x6 => 0xe37f case 0x7 => 0xf35e
    case 0x8 => 0x02b1 case 0x9 => 0x1290 case 0xa => 0x22f3 case 0xb => 0x32d2
    case 0xc => 0x4235 case 0xd => 0x5214 case 0xe => 0x6277 case _ => 0x7256
  }

  function RowA(j: bv8): bv16 {
    match j
    case 0x0 => 0xb5ea case 0x1 => 0xa5cb case 0x2 => 0x95a8 case 0x3 => 0x8589
    case 0x4 => 0xf56e case 0x5 => 0xe54f case 0x6 => 0xd52c case 0x7 => 0xc50d
    case 0x8 => 0x34e2 case 0x9 => 0x24c3 case 0xa => 0x14a0 case 0xb => 0x0481
    case 0xc => 0x7466 case 0xd => 0x6447 case 0xe => 0x5424 case _ => 0x4405
  }

  function RowB(j: bv8): bv16 {
    match j
    case 0x0 => 0xa7db case 0x1 => 0xb7fa case 0x2 => 0x8799 case 0x3 => 0x97b8
    case 0x4 => 0xe75f case 0x5 => 0xf77e case 0x6 => 0xc71d case 0x7 => 0xd73c
    case 0x8 => 0x26d3 case 0x9 => 0x36f2 case 0xa => 0x0691 case 0xb => 0x16b0
    case 0xc => 0x6657 case 0xd => 0x7676 case 0xe => 0x4615 case _ => 0x5634
  }

  function RowC(j: bv8): bv16 {
    match j
    case 0x0 => 0xd94c case 0x1 => 0xc96d case 0x2 => 0xf90e case 0x3 => 0xe92f
    case 0x4 => 0x99c8 case 0x5 => 0x89e9 case 0x6 => 0xb98a case 0x7 => 0xa9ab
    case 0x8 => 0x5844 case 0x9 => 0x4865 case 0xa => 0x7806 case 0xb => 0x6827
    case 0xc => 0x18c0 case 0xd => 0x08e1 case 0xe => 0x3882 case _ => 0x28a3
  }

  function RowD(j: bv8): bv16 {
    match j
    case 0x0 => 0xcb7d case 0x1 => 0xdb5c case 0x2 => 0xeb3f case 0x3 => 0xfb1e
    case 0x4 => 0x8bf9 case 0x5 => 0x9bd8 case 0x6 => 0xabbb case 0x7 => 0xbb9a
    case 0x8 => 0x4a75 case 0x9 => 0x5a54 case 0xa => 0x6a37 case 0xb => 0x7a16
    case 0xc => 0x0af1 case 0xd => 0x1ad0 case 0xe => 0x2ab3 case _ => 0x3a92
  }

  function RowE(j: bv8): bv16 {
    match j
    case 0x0 => 0xfd2e case 0x1 => 0xed0f case 0x2 => 0xdd6c case 0x3 => 0xcd4d
    case 0x4 => 0xbdaa case 0x5 => 0xad8b case 0x6 => 0x9de8 case 0x7 => 0x8dc9
    case 0x8 => 0x7c26 case 0x9 => 0x6c07 case 0xa => 0x5c64 case 0xb => 0x4c45
    case 0xc => 0x3ca2 case 0xd => 0x2c83 case 0xe => 0x1ce0 case _ => 0x0cc1
  }

  function RowF(j: bv8): bv16 {
    match j
    case 0x0 => 0xef1f case 0x1 => 0xff3e case 0x2 => 0xcf5d case 0x3 => 0xdf7c
    case 0x4 => 0xaf9b case 0x5 => 0xbfba case 0x6 => 0x8fd9 case 0x7 => 0x9ff8
    case 0x8 => 0x6e17 case 0x9 => 0x7e36 case 0xa => 0x4e55 case 0xb => 0x5e74
    case 0xc => 0x2e93 case 0xd => 0x3eb2 case 0xe => 0x0ed1 case _ => 0x1ef0
  }

  /** One step of long division by x^16 + x^12 + x^5 + 1: shift out a bit, cancel it if it is set. */
  function Divide1(r: bv16): bv16 {
    (r << 1) ^ (if r & 0x8000 != 0 then 0x1021 else 0)
  }

  function Divide8(r: bv16): bv16 {
    Divide1(Divide1(Divide1(Divide1(Divide1(Divide1(Divide1(Divide1(r))))))))
  }

  lemma {:induction false} Row0IsDivision(j: bv8)
    requires j < 0x10
    ensures Row0(j) == Divide8((0x0 | (j as bv16)) << 8)
  {
  }

  lemma {:induction false} Row1IsDivision(j: bv8)
    requires j < 0x10
    ensures Row1(j) == Divide8((0x10 | (j as bv16)) << 8)
  {
  }

  lemma {:induction false} Row2IsDivision(j: bv8)
    requires j < 0x10
    ensures Row2(j) == Divide8((0x20 | (j as bv16)) << 8)
  {
  }

  lemma {:induction false} Row3IsDivision(j: bv8)
    requires j < 0x10
    ensures Row3(j) == Divide8((0x30 | (j as bv16)) << 8)
  {
  }

  lemma {:induction false} Row4IsDivision(j: bv8)
    requires j < 0x10
    ensures Row4(j) == Divide8((0x40 | (j as bv16)) << 8)
  {
  }

  lemma {:induction false} Row5IsDivision(j: bv8)
    requires j < 0x10
    ensures Row5(j) == Divide8((0x50 | (j as bv16)) << 8)
  {
  }

  lemma {:induction false} Row6IsDivision(j: bv8)
    requires j < 0x10
    ensures Row6(j) == Divide8((0x60 | (j as bv16)) << 8)
  {
  }

  lemma {:induction false} Row7IsDivision(j: bv8)
    requires j < 0x10
    ensures Row7(j) == Divide8((0x70 | (j as bv16)) << 8)
  {
  }

  lemma {:induction false} Row8IsDivision(j: bv8)
    requires j < 0x10
    ensures Row8(j) == Divide8((0x80 | (j as bv16)) << 8)
  {
  }

  lemma {:induction false} Row9IsDivision(j: bv8)
    requires j < 0x10
    ensures Row9(j) == Divide8((0x90 | (j as bv16)) << 8)
  {
  }

  lemma {:induction false} RowAIsDivision(j: bv8)
    requires j < 0x10
    ensures RowA(j) == Divide8((0xa0 | (j as bv16)) << 8)
  {
  }

  lemma {:induction false} RowBIsDivision(j: bv8)
    requires j < 0x10
    ensures RowB(j) == Divide8((0xb0 | (j as bv16)) << 8)
  {
  }

  lemma {:induction false} RowCIsDivision(j: bv8)
    requires j < 0x10
    ensures RowC(j) == Divide8((0xc0 | (j as bv16)) << 8)
  {
  }

  lemma {:induction false} RowDIsDivision(j: bv8)
    requires j < 0x10
    ensures RowD(j) == Divide8((0xd0 | (j as bv16)) << 8)
  {
  }

  lemma {:induction false} RowEIsDivision(j: bv8)
    requires j < 0x10
    ensures RowE(j) == Divide8((0xe0 | (j as bv16)) << 8)
  {
  }

  lemma {:induction false} RowFIsDivision(j: bv8)
    requires j < 0x10
    ensures RowF(j) == Divide8((0xf0 | (j as bv16)) << 8)
  {
  }

  /** Each table entry is its index, moved to the high byte and divided for eight steps. */
  lemma {:induction false} TableIsDivision(i: bv8)
    ensures Crc16Tab(i) == Divide8((i as bv16) << 8)
  {
    var j := i & 0x0f;
    match i >> 4
    case 0x0 => Row0IsDivision(j); assert i as bv16 == (0x0 | (j as bv16));
    case 0x1 => Row1IsDivision(j); assert i as bv16 == (0x10 | (j as bv16));
    case 0x2 => Row2IsDivision(j); assert i as bv16 == (0x20 | (j as bv16));
    case 0x3 => Row3IsDivision(j); assert i as bv16 == (0x30 | (j as bv16));
    case 0x4 => Row4IsDivision(j); assert i as bv16 == (0x40 | (j as bv16));
    case 0x5 => Row5IsDivision(j); assert i as bv16 == (0x50 | (j as bv16));
    case 0x6 => Row6IsDivision(j); assert i as bv16 == (0x60 | (j as bv16));
    case 0x7 => Row7IsDivision(j); assert i as bv16 == (0x70 | (j as bv16));
    case 0x8 => Row8IsDivision(j); assert i as bv16 == (0x80 | (j as bv16));
    case 0x9 => Row9IsDivision(j); assert i as bv16 == (0x90 | (j as bv16));
    case 0xa => RowAIsDivision(j); assert i as bv16 == (0xa0 | (j as bv16));
    case 0xb => RowBIsDivision(j); assert i as bv16 == (0xb0 | (j as bv16));
    case 0xc => RowCIsDivision(j); assert i as bv16 == (0xc0 | (j as bv16));
    case 0xd => RowDIsDivision(j); assert i as bv16 == (0xd0 | (j as bv16));
    case 0xe => RowEIsDivision(j); assert i as bv16 == (0xe0 | (j as bv16));
    case _ => RowFIsDivision(j); assert i as bv16 == (0xf0 | (j as bv16));
  }
}
