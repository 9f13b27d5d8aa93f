/** Digit strings, and the tables of mp_bases.e for bases 2 to 256. */
module Radix {
  import opened Integers
  import opened Limbs
  import opened Bits
  import opened SpecialLogic
  import opened WordDivision
  import opened Congruences
  import opened SingleLimbDivision

  /** NATURAL_8; as a digit it is the number itself, not a character. */
  type Octet = x: int | 0 <= x < 256

  predicate DigitString(b: int, ds: seq<Octet>)
  {
    forall i :: 0 <= i < |ds| ==> ds[i] < b
  }

  /** The number that the digits denote, most significant digit first. */
  function DigitsValue(b: int, ds: seq<Octet>): int
  {
    if ds == [] then 0 else DigitsValue(b, ds[..|ds| - 1]) * b + ds[|ds| - 1]
  }

  predicate PowerOfTwo(base: int)
  {
    base in {2, 4, 8, 16, 32, 64, 128, 256}
  }

  function CharsPerLimb(base: int): (n: nat)
    requires 2 <= base <= 256
    ensures 1 <= n <= 32
  {
    if base <= 2 then 32
    else if base <= 3 then 20
    else if base <= 4 then 16
    else if base <= 5 then 13
    else if base <= 6 then 12
    else if base <= 7 then 11
    else if base <= 9 then 10
    else if base <= 11 then 9
    else if base <= 16 then 8
    else if base <= 23 then 7
    else if base <= 40 then 6
    else if base <= 84 then 5
    else 4
  }

  function BigBaseTo65(base: int): Limb
    requires 2 <= base <= 65
  {
    if base <= 9 then
      (match base
      case 2 => 0x00000001 case 3 => 0xcfd41b91 case 4 => 0x00000002 case 5 => 0x48c27395
      case 6 => 0x81bf1000 case 7 => 0x75db9c97 case 8 => 0x00000003 case _ => 0xcfd41b91)
    else if base <= 17 then
      (match base
      case 10 => 0x3b9aca00 case 11 => 0x8c8b6d2b case 12 => 0x19a10000 case 13 => 0x309f1021
      case 14 => 0x57f6c100 case 15 => 0x98c29b81 case 16 => 0x00000004 case _ => 0x18754571)
    else if base <= 25 then
      (match base
      case 18 => 0x247dbc80 case 19 => 0x3547667b case 20 => 0x4c4b4000 case 21 => 0x6b5a6e1d
      case 22 => 0x94ace180 case 23 => 0xcaf18367 case 24 => 0x0b640000 case _ => 0x0e8d4a51)
    else if base <= 33 then
      (match base
      case 26 => 0x1269ae40 case 27 => 0x17179149 case 28 => 0x1cb91000 case 29 => 0x23744899
      case 30 => 0x2b73a840 case 31 => 0x34e63b41 case 32 => 0x00000005 case _ => 0x4cfa3cc1)
    else if base <= 41 then
      (match base
      case 34 => 0x5c13d840 case 35 => 0x6d91b519 case 36 => 0x81bf1000 case 37 => 0x98ede0c9
      case 38 => 0xb3773e40 case 39 => 0xd1bbc4d1 case 40 => 0xf4240000 case _ => 0x06e7d349)
    else if base <= 49 then
      (match base
      case 42 => 0x07ca30a0 case 43 => 0x08c32bbb case 44 => 0x09d46c00 case 45 => 0x0affacfd
      case 46 => 0x0c46bee0 case 47 => 0x0dab86ef case 48 => 0x0f300000 case _ => 0x10d63af1)
    else if base <= 57 then
      (match base
      case 50 => 0x12a05f20 case 51 => 0x1490aae3 case 52 => 0x16a97400 case 53 => 0x18ed2825
      case 54 => 0x1b5e4d60 case 55 => 0x1dff8297 case 56 => 0x20d38000 case _ => 0x23dd1799)
    else
      (match base
      case 58 => 0x271f35a0 case 59 => 0x2a9ce10b case 60 => 0x2e593c00 case 61 => 0x3257844d
      case 62 => 0x369b13e0 case 63 => 0x3b27613f case 64 => 0x00000006 case _ => 0x4528a141)
  }

  function BigBaseTo129(base: int): Limb
    requires 66 <= base <= 129
  {
    if base <= 73 then
      (match base
      case 66 => 0x4aa51420 case 67 => 0x50794633 case 68 => 0x56a94400 case 69 => 0x5d393975
      case 70 => 0x642d7260 case 71 => 0x6b8a5ae7 case 72 => 0x73548000 case _ => 0x7b908fe9)
    else if base <= 81 then
      (match base
      case 74 => 0x84435aa0 case 75 => 0x8d71d25b case 76 => 0x97210c00 case 77 => 0xa1563f9d
      case 78 => 0xac16c8e0 case 79 => 0xb768278f case 80 => 0xc3500000 case _ => 0xcfd41b91)
    else if base <= 89 then
      (match base
      case 82 => 0xdcfa6920 case 83 => 0xeac8fd83 case 84 => 0xf9461400 case 85 => 0x031c84b1
      case 86 => 0x0342ab10 case 87 => 0x036a2c21 case 88 => 0x03931000 case _ => 0x03bd5ee1)
    else if base <= 97 then
      (match base
      case 90 => 0x03e92110 case 91 => 0x04165ef1 case 92 => 0x04452100 case 93 => 0x04756fd1
      case 94 => 0x04a75410 case 95 => 0x04dad681 case 96 => 0x05100000 case _ => 0x0546d981)
    else if base <= 105 then
      (match base
      case 98 => 0x057f6c10 case 99 => 0x05b9c0d1 case 100 => 0x05f5e100 case 101 => 0x0633d5f1
      case 102 => 0x0673a910 case 103 => 0x06b563e1 case 104 => 0x06f91000 case _ => 0x073eb721)
    else if base <= 113 then
      (match base
      case 106 => 0x07866310 case 107 => 0x07866310 case 108 => 0x081bf100 case 109 => 0x0869e711
      case 110 => 0x08ba0a10 case 111 => 0x090c6441 case 112 => 0x09610000 case _ => 0x09b7e7c1)
    else if base <= 121 then
      (match base
      case 114 => 0x0a112610 case 115 => 0x0a6cc591 case 116 => 0x0acad100 case 117 => 0x0b2b5331
      case 118 => 0x0b8e5710 case 119 => 0x0bf3e7a1 case 120 => 0x0c5c1000 case _ => 0x0cc6db61)
    else
      (match base
      case 122 => 0x0d345510 case 123 => 0x0da48871 case 124 => 0x0e178100 case 125 => 0x0e8d4a51
      case 126 => 0x0f05f010 case 127 => 0x0f817e01 case 128 => 0x00000007 case _ => 0x10818201)
  }

  function BigBaseTo193(base: int): Limb
    requires 130 <= base <= 193
  {
    if base <= 137 then
      (match base
      case 130 => 0x11061010 case 131 => 0x118db651 case 132 => 0x12188100 case 133 => 0x12a67c71
      case 134 => 0x1337b510 case 135 => 0x13cc3761 case 136 => 0x14641000 case _ => 0x14ff4ba1)
    else if base <= 145 then
      (match base
      case 138 => 0x159df710 case 139 => 0x16401f31 case 140 => 0x16e5d100 case 141 => 0x178f1991
      case 142 => 0x183c0610 case 143 => 0x18eca3c1 case 144 => 0x19a10000 case _ => 0x1a592841)
    else if base <= 153 then
      (match base
      case 146 => 0x1b152a10 case 147 => 0x1bd51311 case 148 => 0x1c98f100 case 149 => 0x1d60d1b1
      case 150 => 0x1e2cc310 case 151 => 0x1efcd321 case 152 => 0x1fd11000 case _ => 0x20a987e1)
    else if base <= 161 then
      (match base
      case 154 => 0x21864910 case 155 => 0x226761f1 case 156 => 0x234ce100 case 157 => 0x2436d4d1
      case 158 => 0x25254c10 case 159 => 0x26185581 case 160 => 0x27100000 case _ => 0x280c5a81)
    else if base <= 169 then
      (match base
      case 162 => 0x290d7410 case 163 => 0x2a135bd1 case 164 => 0x2b1e2100 case 165 => 0x2c2dd2f1
      case 166 => 0x2d428110 case 167 => 0x2e5c3ae1 case 168 => 0x2f7b1000 case _ => 0x309f1021)
    else if base <= 177 then
      (match base
      case 170 => 0x31c84b10 case 171 => 0x32f6d0b1 case 172 => 0x342ab100 case 173 => 0x3563fc11
      case 174 => 0x36a2c210 case 175 => 0x37e71341 case 176 => 0x39310000 case _ => 0x3a8098c1)
    else if base <= 185 then
      (match base
      case 178 => 0x3bd5ee10 case 179 => 0x3d311091 case 180 => 0x3e921100 case 181 => 0x3ff90031
      case 182 => 0x4165ef10 case 183 => 0x42d8eea1 case 184 => 0x44521000 case _ => 0x45d16461)
    else
      (match base
      case 186 => 0x4756fd10 case 187 => 0x48e2eb71 case 188 => 0x4a754100 case 189 => 0x4c0e0f51
      case 190 => 0x4dad6810 case 191 => 0x4f535d01 case 192 => 0x51000000 case _ => 0x52b36301)
  }

  function BigBaseTo256(base: int): Limb
    requires 194 <= base <= 256
  {
    if base <= 201 then
      (match base
      case 194 => 0x546d9810 case 195 => 0x562eb151 case 196 => 0x57f6c100 case 197 => 0x59c5d971
      case 198 => 0x5b9c0d10 case 199 => 0x5d796e61 case 200 => 0x5f5e1000 case _ => 0x614a04a1)
    else if base <= 209 then
      (match base
      case 202 => 0x633d5f10 case 203 => 0x65383231 case 204 => 0x673a9100 case 205 => 0x69448e91
      case 206 => 0x6b563e10 case 207 => 0x6d6fb2c1 case 208 => 0x6f910000 case _ => 0x71ba3941)
    else if base <= 217 then
      (match base
      case 210 => 0x73eb7210 case 211 => 0x7624be11 case 212 => 0x78663100 case 213 => 0x7aafdeb1
      case 214 => 0x7d01db10 case 215 => 0x7f5c3a21 case 216 => 0x81bf1000 case _ => 0x842a70e1)
    else if base <= 225 then
      (match base
      case 218 => 0x869e7110 case 219 => 0x891b24f1 case 220 => 0x8ba0a100 case 221 => 0x8e2ef9d1
      case 222 => 0x90c64410 case 223 => 0x93669481 case 224 => 0x96100000 case _ => 0x98c29b81)
    else if base <= 233 then
      (match base
      case 226 => 0x9b7e7c10 case 227 => 0x9e43b6d1 case 228 => 0xa1126100 case 229 => 0xa3ea8ff1
      case 230 => 0xa6cc5910 case 231 => 0xa9b7d1e1 case 232 => 0xacad1000 case _ => 0xafac2921)
    else if base <= 241 then
      (match base
      case 234 => 0xb2b53310 case 235 => 0xb5c843b1 case 236 => 0xb8e57100 case 237 => 0xbc0cd111
      case 238 => 0xbf3e7a10 case 239 => 0xc27a8241 case 240 => 0xc5c10000 case _ => 0xc91209c1)
    else if base <= 249 then
      (match base
      case 242 => 0xcc6db610 case 243 => 0xcfd41b91 case 244 => 0xd3455100 case 245 => 0xd6c16d31
      case 246 => 0xda488710 case 247 => 0xdddab5a1 case 248 => 0xe1781000 case _ => 0xe520ad61)
    else
      (match base
      case 250 => 0xe8d4a510 case 251 => 0xec940e71 case 252 => 0xf05f0100 case 253 => 0xf4359451
      case 254 => 0xf817e010 case 255 => 0xfc05fc01 case _ => 0x00000008)
  }

  /** For a power of two the number of bits in a digit, else the largest power that fits into a limb. */
  function BigBase(base: int): Limb
    requires 2 <= base <= 256
  {
    if base <= 65 then BigBaseTo65(base)
    else if base <= 129 then BigBaseTo129(base)
    else if base <= 193 then BigBaseTo193(base)
    else BigBaseTo256(base)
  }

  function BigBaseInvertedTo65(base: int): Limb
    requires 2 <= base <= 65
  {
    if base <= 9 then
      (match base
      case 2 => 0x00000000 case 3 => 0x3b563c24 case 4 => 0x00000000 case 5 => 0xc25c2684
      case 6 => 0xf91bd1b6 case 7 => 0x1607a2cb case 8 => 0x00000000 case _ => 0x3b563c24)
    else if base <= 17 then
      (match base
      case 10 => 0x12e0be82 case 11 => 0xd24cde04 case 12 => 0x3fa39ab5 case 13 => 0x50f8ac5f
      case 14 => 0x74843b1e case 15 => 0xad0326c2 case 16 => 0x00000000 case _ => 0x4ef0b6bd)
    else if base <= 25 then
      (match base
      case 18 => 0xc0fc48a1 case 19 => 0x33838942 case 20 => 0xad7f29ab case 21 => 0x313c3d15
      case 22 => 0xb8cca9e0 case 23 => 0x42ed6de9 case 24 => 0x67980e0b case _ => 0x19799812)
    else if base <= 33 then
      (match base
      case 26 => 0xbce85396 case 27 => 0x62c103a9 case 28 => 0x1d353d43 case 29 => 0xce1decea
      case 30 => 0x790fc511 case 31 => 0x35b865a0 case 32 => 0x00000000 case _ => 0xa9aed1b3)
    else if base <= 41 then
      (match base
      case 34 => 0x63dfc229 case 35 => 0x2b0fee30 case 36 => 0xf91bd1b6 case 37 => 0xac89c3a9
      case 38 => 0x6d2c32fe case 39 => 0x387907c9 case 40 => 0x0c6f7a0b case _ => 0x28928154)
    else if base <= 49 then
      (match base
      case 42 => 0x06e8629d case 43 => 0xd373dca0 case 44 => 0xa0b17895 case 45 => 0x746811a5
      case 46 => 0x4da6500f case 47 => 0x2ba23582 case 48 => 0x0db20a88 case _ => 0xe68d5ce4)
    else if base <= 57 then
      (match base
      case 50 => 0xb7cdfd9d case 51 => 0x8e583933 case 52 => 0x697cc3ea case 53 => 0x48a5ca6c
      case 54 => 0x2b52db16 case 55 => 0x111586a6 case 56 => 0xf31d2b36 case _ => 0xc8d76d19)
    else
      (match base
      case 58 => 0xa2cb1eb4 case 59 => 0x807c3ec3 case 60 => 0x617ec8bf case 61 => 0x45746cbe
      case 62 => 0x2c0aa273 case 63 => 0x14f90805 case 64 => 0x00000000 case _ => 0xd9cf0829)
  }

  function BigBaseInvertedTo129(base: int): Limb
    requires 66 <= base <= 129
  {
    if base <= 73 then
      (match base
      case 66 => 0xb6fc4841 case 67 => 0x973054cb case 68 => 0x7a1dbe4b case 69 => 0x5f7fcd7f
      case 70 => 0x47196c84 case 71 => 0x30b43635 case 72 => 0x1c1fa5f6 case _ => 0x930634a)
    else if base <= 81 then
      (match base
      case 74 => 0xef7f4a3c case 75 => 0xcf5552d2 case 76 => 0xb1a47c8e case 77 => 0x9634b43e
      case 78 => 0x7cd3817d case 79 => 0x65536761 case 80 => 0x4f8b588e case _ => 0x3b563c24)
    else if base <= 89 then
      (match base
      case 82 => 0x28928154 case 83 => 0x1721bfb0 case 84 => 0x06e8629d case 85 => 0x491cc17c
      case 86 => 0x3a11d83b case 87 => 0x2be074cd case 88 => 0x1e7a02e7 case _ => 0x11d10edd)
    else if base <= 97 then
      (match base
      case 90 => 0x05d92c68 case 91 => 0xf50dbfb2 case 92 => 0xdf9f1316 case 93 => 0xcb52a684
      case 94 => 0xb8163e97 case 95 => 0xa5d8f269 case 96 => 0x948b0fcd case _ => 0x841e0215)
    else if base <= 105 then
      (match base
      case 98 => 0x74843b1e case 99 => 0x65b11e6e case 100 => 0x5798ee23 case 101 => 0x4a30b99b
      case 102 => 0x3d6e4d94 case 103 => 0x314825b0 case 104 => 0x25b55f2e case _ => 0x1aadaccb)
    else if base <= 113 then
      (match base
      case 106 => 0x10294ba2 case 107 => 0x10294ba2 case 108 => 0xf91bd1b6 case 109 => 0xe6d37b2a
      case 110 => 0xd55cff6e case 111 => 0xc4ad2db2 case 112 => 0xb4b985cf case _ => 0xa5782bef)
    else if base <= 121 then
      (match base
      case 114 => 0x96dfdd2a case 115 => 0x88e7e509 case 116 => 0x7b8813d3 case 117 => 0x6eb8b595
      case 118 => 0x627289db case 119 => 0x56aebc07 case 120 => 0x4b66dc33 case _ => 0x4094d8a3)
    else
      (match base
      case 122 => 0x3632f7a5 case 123 => 0x2c3bd1f0 case 124 => 0x22aa4d5f case 125 => 0x19799812
      case 126 => 0x10a523e5 case 127 => 0x0828a237 case 128 => 0x00000000 case _ => 0xf04ec452)
  }

  function BigBaseInvertedTo193(base: int): Limb
    requires 130 <= base <= 193
  {
    if base <= 137 then
      (match base
      case 130 => 0xe136444a case 131 => 0xd2af9589 case 132 => 0xc4b42a83 case 133 => 0xb73dccf5
      case 134 => 0xaa4698c5 case 135 => 0x9dc8f729 case 136 => 0x91bf9a30 case _ => 0x86257887)
    else if base <= 145 then
      (match base
      case 138 => 0x7af5c98c case 139 => 0x702c01a0 case 140 => 0x65c3ceb1 case 141 => 0x5bb91502
      case 142 => 0x5207ec23 case 143 => 0x48ac9c19 case 144 => 0x3fa39ab5 case _ => 0x36e98912)
    else if base <= 153 then
      (match base
      case 146 => 0x2e7b3140 case 147 => 0x2655840b case 148 => 0x1e7596ea case 149 => 0x16d8a20d
      case 150 => 0x0f7bfe87 case 151 => 0x085d2492 case 152 => 0x0179a9f4 case _ => 0xf59e80eb)
    else if base <= 161 then
      (match base
      case 154 => 0xe8b768db case 155 => 0xdc39d6d5 case 156 => 0xd021c5d1 case 157 => 0xc46b5e37
      case 158 => 0xb912f39c case 159 => 0xae150294 case 160 => 0xa36e2eb1 case _ => 0x991b4094)
    else if base <= 169 then
      (match base
      case 162 => 0x8f19241e case 163 => 0x8564e6b7 case 164 => 0x7bfbb5b4 case 165 => 0x72dadcc8
      case 166 => 0x69ffc498 case 167 => 0x6167f154 case 168 => 0x5911016e case _ => 0x50f8ac5f)
    else if base <= 177 then
      (match base
      case 170 => 0x491cc17c case 171 => 0x417b26d8 case 172 => 0x3a11d83b case 173 => 0x32dee622
      case 174 => 0x2be074cd case 175 => 0x2514bb58 case 176 => 0x1e7a02e7 case _ => 0x180ea5d0)
    else if base <= 185 then
      (match base
      case 178 => 0x11d10edd case 179 => 0x0bbfb88e case 180 => 0x05d92c68 case 181 => 0x001c024c
      case 182 => 0xf50dbfb2 case 183 => 0xea30efa3 case 184 => 0xdf9f1316 case _ => 0xd555c0c9)
    else
      (match base
      case 186 => 0xcb52a684 case 187 => 0xc193881f case 188 => 0xb8163e97 case 189 => 0xaed8b724
      case 190 => 0xa5d8f269 case 191 => 0x9d15039d case 192 => 0x948b0fcd case _ => 0x8c394d1d)
  }

  function BigBaseInvertedTo256(base: int): Limb
    requires 194 <= base <= 256
  {
    if base <= 201 then
      (match base
      case 194 => 0x841e0215 case 195 => 0x7c3784f8 case 196 => 0x74843b1e case 197 => 0x6d02985d
      case 198 => 0x65b11e6e case 199 => 0x5e8e5c64 case 200 => 0x5798ee23 case _ => 0x50cf7bde)
    else if base <= 209 then
      (match base
      case 202 => 0x4a30b99b case 203 => 0x43bb66bd case 204 => 0x3d6e4d94 case 205 => 0x374842ee
      case 206 => 0x314825b0 case 207 => 0x2b6cde75 case 208 => 0x25b55f2e case _ => 0x2020a2c5)
    else if base <= 217 then
      (match base
      case 210 => 0x1aadaccb case 211 => 0x155b891f case 212 => 0x10294ba2 case 213 => 0xb160fe9
      case 214 => 0x620f8f6 case 215 => 0x14930ef case 216 => 0xf91bd1b6 case _ => 0xefdcb0c7)
    else if base <= 225 then
      (match base
      case 218 => 0xe6d37b2a case 219 => 0xddfeb94a case 220 => 0xd55cff6e case 221 => 0xcceced50
      case 222 => 0xc4ad2db2 case 223 => 0xbc9c75f9 case 224 => 0xb4b985cf case _ => 0xad0326c2)
    else if base <= 233 then
      (match base
      case 226 => 0xa5782bef case 227 => 0x9e1771a9 case 228 => 0x96dfdd2a case 229 => 0x8fd05c41
      case 230 => 0x88e7e509 case 231 => 0x8225759d case 232 => 0x7b8813d3 case _ => 0x750eccf9)
    else if base <= 241 then
      (match base
      case 234 => 0x6eb8b595 case 235 => 0x6884e923 case 236 => 0x627289db case 237 => 0x5c80c07b
      case 238 => 0x56aebc07 case 239 => 0x50fbb19b case 240 => 0x4b66dc33 case _ => 0x45ef7c7c)
    else if base <= 249 then
      (match base
      case 242 => 0x4094d8a3 case 243 => 0x3b563c24 case 244 => 0x3632f7a5 case 245 => 0x312a60c3
      case 246 => 0x2c3bd1f0 case 247 => 0x2766aa45 case 248 => 0x22aa4d5f case _ => 0x1e06233c)
    else
      (match base
      case 250 => 0x19799812 case 251 => 0x15041c33 case 252 => 0x10a523e5 case 253 => 0x0c5c2749
      case 254 => 0x0828a237 case 255 => 0x040a1423 case _ => 0x00000000)
  }

  /** The reciprocal of the shifted big base. */
  function BigBaseInverted(base: int): Limb
    requires 2 <= base <= 256
  {
    if base <= 65 then BigBaseInvertedTo65(base)
    else if base <= 129 then BigBaseInvertedTo129(base)
    else if base <= 193 then BigBaseInvertedTo193(base)
    else BigBaseInvertedTo256(base)
  }

  /** The printer may use an entry of the tables. */
  predicate GoodEntry(base: int)
    requires 2 <= base <= 256
  {
    var big := BigBase(base);
    && big > 0 && big == Pow(base, CharsPerLimb(base))
    && Normalized(Shl(big, LeadingZeros(big))) && BigBaseInverted(base) == Inverse(Shl(big, LeadingZeros(big)))
  }

  lemma EntryCheck(base: int, shift: nat)
    requires 2 <= base <= 256 && shift <= 31
    requires var big := BigBase(base);
      && big == Pow(base, CharsPerLimb(base))
      && 0x8000_0000 <= big * Pow2(shift) <= 0xffff_ffff
      && BigBaseInverted(base) == 0xffff_ffff_ffff_ffff / (big * Pow2(shift)) - 0x1_0000_0000
    ensures GoodEntry(base)
  {
    hide Pow, Pow2, BigBase, BigBaseInverted, CharsPerLimb;
    var big := BigBase(base);
    var p := Pow2(shift);
    ShiftFound(big, shift);
    DivModUnique(big * p, 0x1_0000_0000, 0, big * p);
  }

  /** The leading zeros are the shift that normalizes. */
  lemma ShiftFound(x: Limb, shift: nat)
    requires shift <= 31 && 0x8000_0000 <= x * Pow2(shift) <= 0xffff_ffff
    ensures LeadingZeros(x) == shift && x > 0
  {
    hide Pow2;
    Pow2Limb();
    LeadingZerosMeaning(x, 32);
    var z := LeadingZeros(x);
    FactorPositive(x, Pow2(shift));
    DivisorBits(x, z);
    if shift < z {
      TwiceAsLarge(x, shift, z);
    } else if z < shift {
      TwiceAsLarge(x, z, shift);
    }
  }

  lemma FactorPositive(x: int, p: int)
    requires x * p > 0 && x >= 0
    ensures x > 0
  {
  }

  lemma TwiceAsLarge(x: int, a: nat, b: nat)
    requires a < b && x >= 0
    ensures x * Pow2(b) >= 2 * (x * Pow2(a))
  {
    hide Pow2;
    Pow2Add(a + 1, b - a - 1);
    Pow2Unfolded(a + 1);
    var p, q := Pow2(a), Pow2(b - a - 1);
    MulLe(2 * p, 1, q);
    MulLe(x, 2 * p, Pow2(b));
    Twice(p, x);
    Commute(x, 2 * p);
    Commute(x, p);
  }

  lemma Entries3To12()
    ensures forall base :: 3 <= base <= 12 && !PowerOfTwo(base) ==> GoodEntry(base)
  {
    hide GoodEntry;
    EntryCheck(3, 0) by { assert Pow(3, 10) == 59049 && Pow(3, 20) == 0xcfd41b91; }
    EntryCheck(5, 1) by { assert Pow(5, 6) == 15625 && Pow(5, 13) == 0x48c27395; }
    EntryCheck(6, 0) by { assert Pow(6, 6) == 46656 && Pow(6, 12) == 0x81bf1000; }
    EntryCheck(7, 1) by { assert Pow(7, 5) == 16807 && Pow(7, 11) == 0x75db9c97; }
    EntryCheck(9, 0) by { assert Pow(9, 5) == 59049 && Pow(9, 10) == 0xcfd41b91; }
    EntryCheck(10, 2); EntryCheck(11, 0); EntryCheck(12, 3);
  }

  lemma Entries13To22()
    ensures forall base :: 13 <= base <= 22 && !PowerOfTwo(base) ==> GoodEntry(base)
  {
    hide GoodEntry;
    EntryCheck(13, 2); EntryCheck(14, 1); EntryCheck(15, 0); EntryCheck(17, 3);
    EntryCheck(18, 2); EntryCheck(19, 2); EntryCheck(20, 1); EntryCheck(21, 1);
    EntryCheck(22, 0);
  }

  lemma Entries23To32()
    ensures forall base :: 23 <= base <= 32 && !PowerOfTwo(base) ==> GoodEntry(base)
  {
    hide GoodEntry;
    EntryCheck(23, 0); EntryCheck(24, 4); EntryCheck(25, 4); EntryCheck(26, 3);
    EntryCheck(27, 3); EntryCheck(28, 3); EntryCheck(29, 2); EntryCheck(30, 2);
    EntryCheck(31, 2);
  }

  lemma Entries33To42()
    ensures forall base :: 33 <= base <= 42 && !PowerOfTwo(base) ==> GoodEntry(base)
  {
    hide GoodEntry;
    EntryCheck(33, 1); EntryCheck(34, 1); EntryCheck(35, 1); EntryCheck(36, 0);
    EntryCheck(37, 0); EntryCheck(38, 0); EntryCheck(39, 0); EntryCheck(40, 0);
    EntryCheck(41, 5); EntryCheck(42, 5);
  }

  lemma Entries43To52()
    ensures forall base :: 43 <= base <= 52 && !PowerOfTwo(base) ==> GoodEntry(base)
  {
    hide GoodEntry;
    EntryCheck(43, 4); EntryCheck(44, 4); EntryCheck(45, 4); EntryCheck(46, 4);
    EntryCheck(47, 4); EntryCheck(48, 4); EntryCheck(49, 3); EntryCheck(50, 3);
    EntryCheck(51, 3); EntryCheck(52, 3);
  }

  lemma Entries53To62()
    ensures forall base :: 53 <= base <= 62 && !PowerOfTwo(base) ==> GoodEntry(base)
  {
    hide GoodEntry;
    EntryCheck(53, 3); EntryCheck(54, 3); EntryCheck(55, 3); EntryCheck(56, 2);
    EntryCheck(57, 2); EntryCheck(58, 2); EntryCheck(59, 2); EntryCheck(60, 2);
    EntryCheck(61, 2); EntryCheck(62, 2);
  }

  lemma Entries63To72()
    ensures forall base :: 63 <= base <= 72 && !PowerOfTwo(base) ==> GoodEntry(base)
  {
    hide GoodEntry;
    EntryCheck(63, 2); EntryCheck(65, 1); EntryCheck(66, 1); EntryCheck(67, 1);
    EntryCheck(68, 1); EntryCheck(69, 1); EntryCheck(70, 1); EntryCheck(71, 1);
    EntryCheck(72, 1);
  }

  lemma Entries73To82()
    ensures forall base :: 73 <= base <= 82 && !PowerOfTwo(base) ==> GoodEntry(base)
  {
    hide GoodEntry;
    EntryCheck(73, 1); EntryCheck(74, 0); EntryCheck(75, 0); EntryCheck(76, 0);
    EntryCheck(77, 0); EntryCheck(78, 0); EntryCheck(79, 0); EntryCheck(80, 0);
    EntryCheck(81, 0); EntryCheck(82, 0);
  }

  lemma Entries83To92()
    ensures forall base :: 83 <= base <= 92 && !PowerOfTwo(base) ==> GoodEntry(base)
  {
    hide GoodEntry;
    EntryCheck(83, 0); EntryCheck(84, 0); EntryCheck(85, 6); EntryCheck(86, 6);
    EntryCheck(87, 6); EntryCheck(88, 6); EntryCheck(89, 6); EntryCheck(90, 6);
    EntryCheck(91, 5); EntryCheck(92, 5);
  }

  lemma Entries93To102()
    ensures forall base :: 93 <= base <= 102 && !PowerOfTwo(base) ==> GoodEntry(base)
  {
    hide GoodEntry;
    EntryCheck(93, 5); EntryCheck(94, 5); EntryCheck(95, 5); EntryCheck(96, 5);
    EntryCheck(97, 5); EntryCheck(98, 5); EntryCheck(99, 5); EntryCheck(100, 5);
    EntryCheck(101, 5); EntryCheck(102, 5);
  }

  lemma Entries103To112()
    ensures forall base :: 103 <= base <= 112 && !PowerOfTwo(base) && base != 107 ==> GoodEntry(base)
  {
    hide GoodEntry;
    EntryCheck(103, 5); EntryCheck(104, 5); EntryCheck(105, 5); EntryCheck(106, 5);
    EntryCheck(108, 4); EntryCheck(109, 4); EntryCheck(110, 4); EntryCheck(111, 4);
    EntryCheck(112, 4);
  }

  lemma Entries113To122()
    ensures forall base :: 113 <= base <= 122 && !PowerOfTwo(base) ==> GoodEntry(base)
  {
    hide GoodEntry;
    EntryCheck(113, 4); EntryCheck(114, 4); EntryCheck(115, 4); EntryCheck(116, 4);
    EntryCheck(117, 4); EntryCheck(118, 4); EntryCheck(119, 4); EntryCheck(120, 4);
    EntryCheck(121, 4); EntryCheck(122, 4);
  }

  lemma Entries123To132()
    ensures forall base :: 123 <= base <= 132 && !PowerOfTwo(base) ==> GoodEntry(base)
  {
    hide GoodEntry;
    EntryCheck(123, 4); EntryCheck(124, 4); EntryCheck(125, 4); EntryCheck(126, 4);
    EntryCheck(127, 4); EntryCheck(129, 3); EntryCheck(130, 3); EntryCheck(131, 3);
    EntryCheck(132, 3);
  }

  lemma Entries133To142()
    ensures forall base :: 133 <= base <= 142 && !PowerOfTwo(base) ==> GoodEntry(base)
  {
    hide GoodEntry;
    EntryCheck(133, 3); EntryCheck(134, 3); EntryCheck(135, 3); EntryCheck(136, 3);
    EntryCheck(137, 3); EntryCheck(138, 3); EntryCheck(139, 3); EntryCheck(140, 3);
    EntryCheck(141, 3); EntryCheck(142, 3);
  }

  lemma Entries143To152()
    ensures forall base :: 143 <= base <= 152 && !PowerOfTwo(base) ==> GoodEntry(base)
  {
    hide GoodEntry;
    EntryCheck(143, 3); EntryCheck(144, 3); EntryCheck(145, 3); EntryCheck(146, 3);
    EntryCheck(147, 3); EntryCheck(148, 3); EntryCheck(149, 3); EntryCheck(150, 3);
    EntryCheck(151, 3); EntryCheck(152, 3);
  }

  lemma Entries153To162()
    ensures forall base :: 153 <= base <= 162 && !PowerOfTwo(base) ==> GoodEntry(base)
  {
    hide GoodEntry;
    EntryCheck(153, 2); EntryCheck(154, 2); EntryCheck(155, 2); EntryCheck(156, 2);
    EntryCheck(157, 2); EntryCheck(158, 2); EntryCheck(159, 2); EntryCheck(160, 2);
    EntryCheck(161, 2); EntryCheck(162, 2);
  }

  lemma Entries163To172()
    ensures forall base :: 163 <= base <= 172 && !PowerOfTwo(base) ==> GoodEntry(base)
  {
    hide GoodEntry;
    EntryCheck(163, 2); EntryCheck(164, 2); EntryCheck(165, 2); EntryCheck(166, 2);
    EntryCheck(167, 2); EntryCheck(168, 2); EntryCheck(169, 2); EntryCheck(170, 2);
    EntryCheck(171, 2); EntryCheck(172, 2);
  }

  lemma Entries173To182()
    ensures forall base :: 173 <= base <= 182 && !PowerOfTwo(base) ==> GoodEntry(base)
  {
    hide GoodEntry;
    EntryCheck(173, 2); EntryCheck(174, 2); EntryCheck(175, 2); EntryCheck(176, 2);
    EntryCheck(177, 2); EntryCheck(178, 2); EntryCheck(179, 2); EntryCheck(180, 2);
    EntryCheck(181, 2); EntryCheck(182, 1);
  }

  lemma Entries183To192()
    ensures forall base :: 183 <= base <= 192 && !PowerOfTwo(base) ==> GoodEntry(base)
  {
    hide GoodEntry;
    EntryCheck(183, 1); EntryCheck(184, 1); EntryCheck(185, 1); EntryCheck(186, 1);
    EntryCheck(187, 1); EntryCheck(188, 1); EntryCheck(189, 1); EntryCheck(190, 1);
    EntryCheck(191, 1); EntryCheck(192, 1);
  }

  lemma Entries193To202()
    ensures forall base :: 193 <= base <= 202 && !PowerOfTwo(base) ==> GoodEntry(base)
  {
    hide GoodEntry;
    EntryCheck(193, 1); EntryCheck(194, 1); EntryCheck(195, 1); EntryCheck(196, 1);
    EntryCheck(197, 1); EntryCheck(198, 1); EntryCheck(199, 1); EntryCheck(200, 1);
    EntryCheck(201, 1); EntryCheck(202, 1);
  }

  lemma Entries203To212()
    ensures forall base :: 203 <= base <= 212 && !PowerOfTwo(base) ==> GoodEntry(base)
  {
    hide GoodEntry;
    EntryCheck(203, 1); EntryCheck(204, 1); EntryCheck(205, 1); EntryCheck(206, 1);
    EntryCheck(207, 1); EntryCheck(208, 1); EntryCheck(209, 1); EntryCheck(210, 1);
    EntryCheck(211, 1); EntryCheck(212, 1);
  }

  lemma Entries213To222()
    ensures forall base :: 213 <= base <= 222 && !PowerOfTwo(base) ==> GoodEntry(base)
  {
    hide GoodEntry;
    EntryCheck(213, 1); EntryCheck(214, 1); EntryCheck(215, 1); EntryCheck(216, 0);
    EntryCheck(217, 0); EntryCheck(218, 0); EntryCheck(219, 0); EntryCheck(220, 0);
    EntryCheck(221, 0); EntryCheck(222, 0);
  }

  lemma Entries223To232()
    ensures forall base :: 223 <= base <= 232 && !PowerOfTwo(base) ==> GoodEntry(base)
  {
    hide GoodEntry;
    EntryCheck(223, 0); EntryCheck(224, 0); EntryCheck(225, 0); EntryCheck(226, 0);
    EntryCheck(227, 0); EntryCheck(228, 0); EntryCheck(229, 0); EntryCheck(230, 0);
    EntryCheck(231, 0); EntryCheck(232, 0);
  }

  lemma Entries233To242()
    ensures forall base :: 233 <= base <= 242 && !PowerOfTwo(base) ==> GoodEntry(base)
  {
    hide GoodEntry;
    EntryCheck(233, 0); EntryCheck(234, 0); EntryCheck(235, 0); EntryCheck(236, 0);
    EntryCheck(237, 0); EntryCheck(238, 0); EntryCheck(239, 0); EntryCheck(240, 0);
    EntryCheck(241, 0); EntryCheck(242, 0);
  }

  lemma Entries243To252()
    ensures forall base :: 243 <= base <= 252 && !PowerOfTwo(base) ==> GoodEntry(base)
  {
    hide GoodEntry;
    EntryCheck(243, 0); EntryCheck(244, 0); EntryCheck(245, 0); EntryCheck(246, 0);
    EntryCheck(247, 0); EntryCheck(248, 0); EntryCheck(249, 0); EntryCheck(250, 0);
    EntryCheck(251, 0); EntryCheck(252, 0);
  }

  lemma Entries253To256()
    ensures forall base :: 253 <= base <= 256 && !PowerOfTwo(base) ==> GoodEntry(base)
  {
    hide GoodEntry;
    EntryCheck(253, 0); EntryCheck(254, 0); EntryCheck(255, 0);
  }

  /** The entry for 107 repeats the entry for 106, in both tables. */
  lemma WrongEntryFor107()
    ensures BigBase(107) == BigBase(106) == Pow(106, 4) && BigBaseInverted(107) == BigBaseInverted(106)
    ensures BigBase(107) != Pow(107, CharsPerLimb(107)) && !GoodEntry(107)
  {
    assert Pow(106, 2) == 11236 && Pow(107, 2) == 11449;
  }

  /** Of all bases that are no power of two, the tables are wrong for 107 alone. */
  lemma TablesGood(base: int)
    requires 3 <= base <= 256 && !PowerOfTwo(base)
    ensures GoodEntry(base) <==> base != 107
  {
    hide GoodEntry, BigBase, BigBaseInverted, CharsPerLimb, Pow;
    WrongEntryFor107();
    Entries3To12();
    Entries13To22();
    Entries23To32();
    Entries33To42();
    Entries43To52();
    Entries53To62();
    Entries63To72();
    Entries73To82();
    Entries83To92();
    Entries93To102();
    Entries103To112();
    Entries113To122();
    Entries123To132();
    Entries133To142();
    Entries143To152();
    Entries153To162();
    Entries163To172();
    Entries173To182();
    Entries183To192();
    Entries193To202();
    Entries203To212();
    Entries213To222();
    Entries223To232();
    Entries233To242();
    Entries243To252();
    Entries253To256();
  }

  /** The entry of a power of two is the number of bits of its digits. */
  lemma DigitBits(base: int)
    requires 2 <= base <= 256 && PowerOfTwo(base)
    ensures BigBase(base) >= 1 && Pow2(BigBase(base)) == base && (base <= 62 ==> BigBase(base) <= 5)
  {
    assert BigBase(2) == 1 && BigBase(4) == 2 && BigBase(8) == 3 && BigBase(16) == 4;
    assert BigBase(32) == 5 && BigBase(64) == 6 && BigBase(128) == 7 && BigBase(256) == 8;
    assert Pow2(1) == 2 && Pow2(2) == 4 && Pow2(3) == 8 && Pow2(4) == 16;
    assert Pow2(5) == 32 && Pow2(6) == 64 && Pow2(7) == 128 && Pow2(8) == 256;
  }
}
