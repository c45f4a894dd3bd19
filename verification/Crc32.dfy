/** src/common/crc32.cpp: the table-driven CRC-32 against the bit-by-bit one of section 8 of RFC 1952, and what it detects. */
module Crc32 {
  import opened Bytes
  import SR = ShiftRegister

  // ---- the table, sixteen entries a function ----

  function Row0(i: byte): bv32 {
    match i
    case 0 => 0x00000000 case 1 => 0x77073096 case 2 => 0xEE0E612C case 3 => 0x990951BA
    case 4 => 0x076DC419 case 5 => 0x706AF48F case 6 => 0xE963A535 case 7 => 0x9E6495A3
    case 8 => 0x0EDB8832 case 9 => 0x79DCB8A4 case 10 => 0xE0D5E91E case 11 => 0x97D2D988
    case 12 => 0x09B64C2B case 13 => 0x7EB17CBD case 14 => 0xE7B82D07 case _ => 0x90BF1D91
  }

  function Row1(i: byte): bv32 {
    match i
    case 16 => 0x1DB71064 case 17 => 0x6AB020F2 case 18 => 0xF3B97148 case 19 => 0x84BE41DE
    case 20 => 0x1ADAD47D case 21 => 0x6DDDE4EB case 22 => 0xF4D4B551 case 23 => 0x83D385C7
    case 24 => 0x136C9856 case 25 => 0x646BA8C0 case 26 => 0xFD62F97A case 27 => 0x8A65C9EC
    case 28 => 0x14015C4F case 29 => 0x63066CD9 case 30 => 0xFA0F3D63 case _ => 0x8D080DF5
  }

  function Row2(i: byte): bv32 {
    match i
    case 32 => 0x3B6E20C8 case 33 => 0x4C69105E case 34 => 0xD56041E4 case 35 => 0xA2677172
    case 36 => 0x3C03E4D1 case 37 => 0x4B04D447 case 38 => 0xD20D85FD case 39 => 0xA50AB56B
    case 40 => 0x35B5A8FA case 41 => 0x42B2986C case 42 => 0xDBBBC9D6 case 43 => 0xACBCF940
    case 44 => 0x32D86CE3 case 45 => 0x45DF5C75 case 46 => 0xDCD60DCF case _ => 0xABD13D59
  }

  function Row3(i: byte): bv32 {
    match i
    case 48 => 0x26D930AC case 49 => 0x51DE003A case 50 => 0xC8D75180 case 51 => 0xBFD06116
    case 52 => 0x21B4F4B5 case 53 => 0x56B3C423 case 54 => 0xCFBA9599 case 55 => 0xB8BDA50F
    case 56 => 0x2802B89E case 57 => 0x5F058808 case 58 => 0xC60CD9B2 case 59 => 0xB10BE924
    case 60 => 0x2F6F7C87 case 61 => 0x58684C11 case 62 => 0xC1611DAB case _ => 0xB6662D3D
  }

  function Row4(i: byte): bv32 {
    match i
    case 64 => 0x76DC4190 case 65 => 0x01DB7106 case 66 => 0x98D220BC case 67 => 0xEFD5102A
    case 68 => 0x71B18589 case 69 => 0x06B6B51F case 70 => 0x9FBFE4A5 case 71 => 0xE8B8D433
    case 72 => 0x7807C9A2 case 73 => 0x0F00F934 case 74 => 0x9609A88E case 75 => 0xE10E9818
    case 76 => 0x7F6A0DBB case 77 => 0x086D3D2D case 78 => 0x91646C97 case _ => 0xE6635C01
  }

  function Row5(i: byte): bv32 {
    match i
    case 80 => 0x6B6B51F4 case 81 => 0x1C6C6162 case 82 => 0x856530D8 case 83 => 0xF262004E
    case 84 => 0x6C0695ED case 85 => 0x1B01A57B case 86 => 0x8208F4C1 case 87 => 0xF50FC457
    case 88 => 0x65B0D9C6 case 89 => 0x12B7E950 case 90 => 0x8BBEB8EA case 91 => 0xFCB9887C
    case 92 => 0x62DD1DDF case 93 => 0x15DA2D49 case 94 => 0x8CD37CF3 case _ => 0xFBD44C65
  }

  function Row6(i: byte): bv32 {
    match i
    case 96 => 0x4DB26158 case 97 => 0x3AB551CE case 98 => 0xA3BC0074 case 99 => 0xD4BB30E2
    case 100 => 0x4ADFA541 case 101 => 0x3DD895D7 case 102 => 0xA4D1C46D case 103 => 0xD3D6F4FB
    case 104 => 0x4369E96A case 105 => 0x346ED9FC case 106 => 0xAD678846 case 107 => 0xDA60B8D0
    case 108 => 0x44042D73 case 109 => 0x33031DE5 case 110 => 0xAA0A4C5F case _ => 0xDD0D7CC9
  }

  function Row7(i: byte): bv32 {
    match i
    case 112 => 0x5005713C case 113 => 0x270241AA case 114 => 0xBE0B1010 case 115 => 0xC90C2086
    case 116 => 0x5768B525 case 117 => 0x206F85B3 case 118 => 0xB966D409 case 119 => 0xCE61E49F
    case 120 => 0x5EDEF90E case 121 => 0x29D9C998 case 122 => 0xB0D09822 case 123 => 0xC7D7A8B4
    case 124 => 0x59B33D17 case 125 => 0x2EB40D81 case 126 => 0xB7BD5C3B case _ => 0xC0BA6CAD
  }

  function Row8(i: byte): bv32 {
    match i
    case 128 => 0xEDB88320 case 129 => 0x9ABFB3B6 case 130 => 0x03B6E20C case 131 => 0x74B1D29A
    case 132 => 0xEAD54739 case 133 => 0x9DD277AF case 134 => 0x04DB2615 case 135 => 0x73DC1683
    case 136 => 0xE3630B12 case 137 => 0x94643B84 case 138 => 0x0D6D6A3E case 139 => 0x7A6A5AA8
    case 140 => 0xE40ECF0B case 141 => 0x9309FF9D case 142 => 0x0A00AE27 case _ => 0x7D079EB1
  }

  function Row9(i: byte): bv32 {
    match i
    case 144 => 0xF00F9344 case 145 => 0x8708A3D2 case 146 => 0x1E01F268 case 147 => 0x6906C2FE
    case 148 => 0xF762575D case 149 => 0x806567CB case 150 => 0x196C3671 case 151 => 0x6E6B06E7
    case 152 => 0xFED41B76 case 153 => 0x89D32BE0 case 154 => 0x10DA7A5A case 155 => 0x67DD4ACC
    case 156 => 0xF9B9DF6F case 157 => 0x8EBEEFF9 case 158 => 0x17B7BE43 case _ => 0x60B08ED5
  }

  function RowA(i: byte): bv32 {
    match i
    case 160 => 0xD6D6A3E8 case 161 => 0xA1D1937E case 162 => 0x38D8C2C4 case 163 => 0x4FDFF252
    case 164 => 0xD1BB67F1 case 165 => 0xA6BC5767 case 166 => 0x3FB506DD case 167 => 0x48B2364B
    case 168 => 0xD80D2BDA case 169 => 0xAF0A1B4C case 170 => 0x36034AF6 case 171 => 0x41047A60
    case 172 => 0xDF60EFC3 case 173 => 0xA867DF55 case 174 => 0x316E8EEF case _ => 0x4669BE79
  }

  function RowB(i: byte): bv32 {
    match i
    case 176 => 0xCB61B38C case 177 => 0xBC66831A case 178 => 0x256FD2A0 case 179 => 0x5268E236
    case 180 => 0xCC0C7795 case 181 => 0xBB0B4703 case 182 => 0x220216B9 case 183 => 0x5505262F
    case 184 => 0xC5BA3BBE case 185 => 0xB2BD0B28 case 186 => 0x2BB45A92 case 187 => 0x5CB36A04
    case 188 => 0xC2D7FFA7 case 189 => 0xB5D0CF31 case 190 => 0x2CD99E8B case _ => 0x5BDEAE1D
  }

  function RowC(i: byte): bv32 {
    match i
    case 192 => 0x9B64C2B0 case 193 => 0xEC63F226 case 194 => 0x756AA39C case 195 => 0x026D930A
    case 196 => 0x9C0906A9 case 197 => 0xEB0E363F case 198 => 0x72076785 case 199 => 0x05005713
    case 200 => 0x95BF4A82 case 201 => 0xE2B87A14 case 202 => 0x7BB12BAE case 203 => 0x0CB61B38
    case 204 => 0x92D28E9B case 205 => 0xE5D5BE0D case 206 => 0x7CDCEFB7 case _ => 0x0BDBDF21
  }

  function RowD(i: byte): bv32 {
    match i
    case 208 => 0x86D3D2D4 case 209 => 0xF1D4E242 case 210 => 0x68DDB3F8 case 211 => 0x1FDA836E
    case 212 => 0x81BE16CD case 213 => 0xF6B9265B case 214 => 0x6FB077E1 case 215 => 0x18B74777
    case 216 => 0x88085AE6 case 217 => 0xFF0F6A70 case 218 => 0x66063BCA case 219 => 0x11010B5C
    case 220 => 0x8F659EFF case 221 => 0xF862AE69 case 222 => 0x616BFFD3 case _ => 0x166CCF45
  }

  function RowE(i: byte): bv32 {
    match i
    case 224 => 0xA00AE278 case 225 => 0xD70DD2EE case 226 => 0x4E048354 case 227 => 0x3903B3C2
    case 228 => 0xA7672661 case 229 => 0xD06016F7 case 230 => 0x4969474D case 231 => 0x3E6E77DB
    case 232 => 0xAED16A4A case 233 => 0xD9D65ADC case 234 => 0x40DF0B66 case 235 => 0x37D83BF0
    case 236 => 0xA9BCAE53 case 237 => 0xDEBB9EC5 case 238 => 0x47B2CF7F case _ => 0x30B5FFE9
  }

  function RowF(i: byte): bv32 {
    match i
    case 240 => 0xBDBDF21C case 241 => 0xCABAC28A case 242 => 0x53B39330 case 243 => 0x24B4A3A6
    case 244 => 0xBAD03605 case 245 => 0xCDD70693 case 246 => 0x54DE5729 case 247 => 0x23D967BF
    case 248 => 0xB3667A2E case 249 => 0xC4614AB8 case 250 => 0x5D681B02 case 251 => 0x2A6F2B94
    case 252 => 0xB40BBE37 case 253 => 0xC30C8EA1 case 254 => 0x5A05DF1B case _ => 0x2D02EF8D
  }

  /** crc32_table[i]. */
  function Table(i: byte): bv32 {
    if i < 16 then Row0(i)
    else if i < 32 then Row1(i)
    else if i < 48 then Row2(i)
    else if i < 64 then Row3(i)
    else if i < 80 then Row4(i)
    else if i < 96 then Row5(i)
    else if i < 112 then Row6(i)
    else if i < 128 then Row7(i)
    else if i < 144 then Row8(i)
    else if i < 160 then Row9(i)
    else if i < 176 then RowA(i)
    else if i < 192 then RowB(i)
    else if i < 208 then RowC(i)
    else if i < 224 then RowD(i)
    else if i < 240 then RowE(i)
    else RowF(i)
  }

  // ---- the reflected polynomial, bit by bit ----

  const POLYNOMIAL: bv32 := 0xEDB88320
  const ALL_ONES: bv32 := 0xFFFFFFFF

  /** One bit of the division. */
  function ShiftBit(c: bv32): bv32 {
    if c & 1 == 1 then (c >> 1) ^ POLYNOMIAL else c >> 1
  }

  function ShiftByte(c: bv32): bv32 {
    ShiftBit(ShiftBit(ShiftBit(ShiftBit(ShiftBit(ShiftBit(ShiftBit(ShiftBit(c))))))))
  }

  function Xor(x: bv32, y: bv32): bv32 {
    x ^ y
  }

  function Embed(b: byte): bv32 {
    b as bv32
  }

  /** The register after the bytes of `data`, each added in and divided bit by bit. */
  function Register(init: bv32, data: seq<byte>): bv32 {
    SR.Register(ShiftBit, Xor, Embed, init, data)
  }

  function Crc(data: seq<byte>): bv32 {
    Register(ALL_ONES, data) ^ ALL_ONES
  }

  function Update(prev: bv32, data: seq<byte>): bv32 {
    Register(prev ^ ALL_ONES, data) ^ ALL_ONES
  }

  lemma Row0IsShift(i: byte)
    requires 0 <= i <= 15
    ensures Row0(i) == ShiftByte(i as bv32)
  {
  }

  lemma Row1IsShift(i: byte)
    requires 16 <= i <= 31
    ensures Row1(i) == ShiftByte(i as bv32)
  {
  }

  lemma Row2IsShift(i: byte)
    requires 32 <= i <= 47
    ensures Row2(i) == ShiftByte(i as bv32)
  {
  }

  lemma Row3IsShift(i: byte)
    requires 48 <= i <= 63
    ensures Row3(i) == ShiftByte(i as bv32)
  {
    if i <= 55 {
      Row3StartIsShift(i);
    } else {
      Row3EndIsShift(i);
    }
  }

  lemma Row3StartIsShift(i: byte)
    requires 48 <= i <= 55
    ensures Row3(i) == ShiftByte(i as bv32)
  {
  }

  lemma Row3EndIsShift(i: byte)
    requires 56 <= i <= 63
    ensures Row3(i) == ShiftByte(i as bv32)
  {
  }

  lemma Row4IsShift(i: byte)
    requires 64 <= i <= 79
    ensures Row4(i) == ShiftByte(i as bv32)
  {
    if i <= 71 {
      Row4StartIsShift(i);
    } else {
      Row4EndIsShift(i);
    }
  }

  lemma Row4StartIsShift(i: byte)
    requires 64 <= i <= 71
    ensures Row4(i) == ShiftByte(i as bv32)
  {
  }

  lemma Row4EndIsShift(i: byte)
    requires 72 <= i <= 79
    ensures Row4(i) == ShiftByte(i as bv32)
  {
  }

  lemma Row5IsShift(i: byte)
    requires 80 <= i <= 95
    ensures Row5(i) == ShiftByte(i as bv32)
  {
  }

  lemma Row6IsShift(i: byte)
    requires 96 <= i <= 111
    ensures Row6(i) == ShiftByte(i as bv32)
  {
  }

  lemma Row7IsShift(i: byte)
    requires 112 <= i <= 127
    ensures Row7(i) == ShiftByte(i as bv32)
  {
  }

  lemma Row8IsShift(i: byte)
    requires 128 <= i <= 143
    ensures Row8(i) == ShiftByte(i as bv32)
  {
  }

  lemma Row9IsShift(i: byte)
    requires 144 <= i <= 159
    ensures Row9(i) == ShiftByte(i as bv32)
  {
  }

  lemma RowAIsShift(i: byte)
    requires 160 <= i <= 175
    ensures RowA(i) == ShiftByte(i as bv32)
  {
  }

  lemma RowBIsShift(i: byte)
    requires 176 <= i <= 191
    ensures RowB(i) == ShiftByte(i as bv32)
  {
  }

  lemma RowCIsShift(i: byte)
    requires 192 <= i <= 207
    ensures RowC(i) == ShiftByte(i as bv32)
  {
  }

  lemma RowDIsShift(i: byte)
    requires 208 <= i <= 223
    ensures RowD(i) == ShiftByte(i as bv32)
  {
  }

  lemma RowEIsShift(i: byte)
    requires 224 <= i <= 239
    ensures RowE(i) == ShiftByte(i as bv32)
  {
  }

  lemma RowFIsShift(i: byte)
    requires 240 <= i <= 255
    ensures RowF(i) == ShiftByte(i as bv32)
  {
  }

  lemma TwoSteps(c: bv32, n: nat)
    ensures SR.Iterate(ShiftBit, c, n + 2) == SR.Iterate(ShiftBit, ShiftBit(ShiftBit(c)), n)
  {
    assert SR.Iterate(ShiftBit, ShiftBit(c), n + 1) == SR.Iterate(ShiftBit, ShiftBit(ShiftBit(c)), n);
  }

  lemma ShiftByteIsIterate(c: bv32)
    ensures ShiftByte(c) == SR.Iterate(ShiftBit, c, 8)
  {
    var c2 := ShiftBit(ShiftBit(c));
    var c4 := ShiftBit(ShiftBit(c2));
    var c6 := ShiftBit(ShiftBit(c4));
    TwoSteps(c, 6);
    TwoSteps(c2, 4);
    TwoSteps(c4, 2);
    TwoSteps(c6, 0);
  }

  /** Every entry of the table is its index shifted through the polynomial eight times. */
  lemma TableIsShift(i: byte)
    ensures Table(i) == ShiftByte(i as bv32)
  {
    if i < 16 {
      Row0IsShift(i);
    } else if i < 32 {
      Row1IsShift(i);
    } else if i < 48 {
      Row2IsShift(i);
    } else if i < 64 {
      Row3IsShift(i);
    } else if i < 80 {
      Row4IsShift(i);
    } else if i < 96 {
      Row5IsShift(i);
    } else if i < 112 {
      Row6IsShift(i);
    } else if i < 128 {
      Row7IsShift(i);
    } else if i < 144 {
      Row8IsShift(i);
    } else if i < 160 {
      Row9IsShift(i);
    } else if i < 176 {
      RowAIsShift(i);
    } else if i < 192 {
      RowBIsShift(i);
    } else if i < 208 {
      RowCIsShift(i);
    } else if i < 224 {
      RowDIsShift(i);
    } else if i < 240 {
      RowEIsShift(i);
    } else {
      RowFIsShift(i);
    }
  }

  lemma TableIsIterate(i: byte)
    ensures Table(i) == SR.Iterate(ShiftBit, i as bv32, 8)
  {
    TableIsShift(i);
    ShiftByteIsIterate(i as bv32);
  }

  // ---- the step is linear and injective ----

  lemma LinearBothClear(x: bv32, y: bv32)
    requires x & 1 == 0 && y & 1 == 0
    ensures ShiftBit(x ^ y) == ShiftBit(x) ^ ShiftBit(y)
  {
  }

  lemma LinearOneSet(x: bv32, y: bv32)
    requires x & 1 != 0 && y & 1 == 0
    ensures ShiftBit(x ^ y) == ShiftBit(x) ^ ShiftBit(y)
  {
  }

  lemma LinearBothSet(x: bv32, y: bv32)
    requires x & 1 != 0 && y & 1 != 0
    ensures ShiftBit(x ^ y) == ShiftBit(x) ^ ShiftBit(y)
  {
  }

  lemma XorCommutes(x: bv32, y: bv32)
    ensures x ^ y == y ^ x
  {
  }

  lemma ShiftBitLinear(x: bv32, y: bv32)
    ensures ShiftBit(x ^ y) == ShiftBit(x) ^ ShiftBit(y)
  {
    if x & 1 == 0 {
      if y & 1 == 0 {
        LinearBothClear(x, y);
      } else {
        LinearOneSet(y, x);
        XorCommutes(x, y);
        XorCommutes(ShiftBit(x), ShiftBit(y));
      }
    } else if y & 1 == 0 {
      LinearOneSet(x, y);
    } else {
      LinearBothSet(x, y);
    }
  }

  function UnshiftBit(c: bv32): bv32 {
    if c & 0x80000000 != 0 then ((c ^ POLYNOMIAL) << 1) | 1 else c << 1
  }

  lemma UnshiftShift(c: bv32)
    ensures UnshiftBit(ShiftBit(c)) == c
  {
  }

  lemma StepIsLinear()
    ensures SR.Linear(ShiftBit, Xor)
  {
    forall a, b
      ensures ShiftBit(Xor(a, b)) == Xor(ShiftBit(a), ShiftBit(b))
    {
      ShiftBitLinear(a, b);
    }
  }

  lemma StepIsInjective()
    ensures SR.Injective(ShiftBit)
  {
    forall a, b | ShiftBit(a) == ShiftBit(b)
      ensures a == b
    {
      UnshiftShift(a);
      UnshiftShift(b);
    }
  }

  lemma XorIsGroup()
    ensures SR.Group(Xor)
  {
    forall a, b, m | Xor(a, m) == Xor(b, m)
      ensures a == b
    {
      assert (a ^ m) ^ m == a && (b ^ m) ^ m == b;
    }
    forall a, b, m | Xor(m, a) == Xor(m, b)
      ensures a == b
    {
      assert m ^ (m ^ a) == a && m ^ (m ^ b) == b;
    }
  }

  // ---- the loops ----

  lemma ShiftOfHighBytes(y: bv32)
    requires y & 0xFF == 0
    ensures SR.Iterate(ShiftBit, y, 8) == y >> 8
  {
    ShiftByteIsIterate(y);
    ShiftByteOfHighBytes(y);
  }

  lemma ShiftByteOfHighBytes(y: bv32)
    requires y & 0xFF == 0
    ensures ShiftByte(y) == y >> 8
  {
  }

  function NextCrc(crc: bv32, b: byte): bv32 {
    (crc >> 8) ^ Table(((crc ^ (b as bv32)) & 0xFF) as byte)
  }

  function HighBytes(crc: bv32, b: byte): bv32 {
    (crc ^ (b as bv32)) & 0xFFFFFF00
  }

  function LowByte(crc: bv32, b: byte): bv32 {
    (crc ^ (b as bv32)) & 0xFF
  }

  function ShiftedHigh(crc: bv32, b: byte): bv32 {
    crc >> 8
  }

  function LookedUpLow(crc: bv32, b: byte): bv32 {
    Table(((crc ^ (b as bv32)) & 0xFF) as byte)
  }

  lemma PartsOfRegister(crc: bv32, b: byte)
    ensures var x := crc ^ (b as bv32);
            && (x & 0xFFFFFF00) ^ (x & 0xFF) == x
            && (x & 0xFFFFFF00) & 0xFF == 0
            && (x & 0xFFFFFF00) >> 8 == crc >> 8
  {
  }

  lemma HighBytesShift(crc: bv32, b: byte)
    ensures ShiftedHigh(crc, b) == SR.Iterate(ShiftBit, HighBytes(crc, b), 8)
  {
    PartsOfRegister(crc, b);
    ShiftOfHighBytes((crc ^ (b as bv32)) & 0xFFFFFF00);
  }

  lemma LowByteLookup(crc: bv32, b: byte)
    ensures LookedUpLow(crc, b) == SR.Iterate(ShiftBit, LowByte(crc, b), 8)
  {
    var low := (crc ^ (b as bv32)) & 0xFF;
    TableIsIterate(low as byte);
    assert (low as byte) as bv32 == low;
  }

  lemma SplitsIntoParts(crc: bv32, b: byte)
    ensures Xor(crc, Embed(b)) == Xor(HighBytes(crc, b), LowByte(crc, b))
  {
    var x := crc ^ (b as bv32);
    assert x == (x & 0xFFFFFF00) ^ (x & 0xFF);
  }

  lemma BytesSplit()
    ensures SR.Splits(Xor, Embed, HighBytes, LowByte)
  {
    forall crc, b
      ensures Xor(crc, Embed(b)) == Xor(HighBytes(crc, b), LowByte(crc, b))
    {
      SplitsIntoParts(crc, b);
    }
  }

  lemma NextCrcJoins()
    ensures SR.Joins(NextCrc, Xor, ShiftedHigh, LookedUpLow)
  {
  }

  lemma HighBytesStep()
    ensures SR.StepsTo(ShiftBit, HighBytes, ShiftedHigh)
  {
    forall crc, b
      ensures ShiftedHigh(crc, b) == SR.Iterate(ShiftBit, HighBytes(crc, b), 8)
    {
      HighBytesShift(crc, b);
    }
  }

  lemma LowByteSteps()
    ensures SR.StepsTo(ShiftBit, LowByte, LookedUpLow)
  {
    forall crc, b
      ensures LookedUpLow(crc, b) == SR.Iterate(ShiftBit, LowByte(crc, b), 8)
    {
      LowByteLookup(crc, b);
    }
  }

  /** The table-driven step refines adding the byte and dividing it away bit by bit. */
  lemma TableRefinesPolynomial()
    ensures SR.Refines(NextCrc, ShiftBit, Xor, Embed)
  {
    StepIsLinear();
    BytesSplit();
    NextCrcJoins();
    HighBytesStep();
    LowByteSteps();
    SR.RefinesByParts(NextCrc, ShiftBit, Xor, Embed, HighBytes, LowByte, ShiftedHigh, LookedUpLow);
  }

  method Crc32Impl(init: bv32, data: seq<byte>) returns (crc: bv32)
    ensures crc == Register(init, data)
  {
    crc := init;
    for i := 0 to |data|
      invariant crc == SR.Fold(NextCrc, init, data[..i])
    {
      assert data[..i + 1][..i] == data[..i];
      crc := NextCrc(crc, data[i]);
    }
    assert data[..|data|] == data;
    TableRefinesPolynomial();
    SR.FoldIsRegister(NextCrc, ShiftBit, Xor, Embed, init, data);
  }

  method ComputeCRC32(data: seq<byte>) returns (crc: bv32)
    ensures crc == Crc(data)
  {
    var register := Crc32Impl(ALL_ONES, data);
    crc := register ^ ALL_ONES;
  }

  method UpdateCRC32(prev: bv32, data: seq<byte>) returns (crc: bv32)
    ensures crc == Update(prev, data)
  {
    var register := Crc32Impl(prev ^ ALL_ONES, data);
    crc := register ^ ALL_ONES;
  }

  // ---- splitting a message ----

  /** Feeding a message in two parts through UpdateCRC32 gives the checksum of the whole. */
  lemma UpdateOfSplit(a: seq<byte>, b: seq<byte>)
    ensures Update(Crc(a), b) == Crc(a + b)
  {
    SR.RegisterOfConcat(ShiftBit, Xor, Embed, ALL_ONES, a, b);
    assert Crc(a) ^ ALL_ONES == Register(ALL_ONES, a);
  }

  /** No bytes have the checksum 0, and continuing from it is starting anew. */
  lemma ZeroIsEmpty(data: seq<byte>)
    ensures Crc([]) == 0 && Update(0, data) == Crc(data)
  {
    assert (0 as bv32) ^ ALL_ONES == ALL_ONES && ALL_ONES ^ ALL_ONES == 0;
  }

  /** The register that has read a zero byte is no longer the initial one. */
  lemma RegisterOfZeroByte()
    ensures Register(ALL_ONES, [0]) == 0x2DFD1072
  {
    var zero: seq<byte> := [0];
    assert zero[..0] == [];
    assert Register(ALL_ONES, zero) == SR.Iterate(ShiftBit, Xor(ALL_ONES, Embed(0)), 8);
    assert Xor(ALL_ONES, Embed(0)) == ALL_ONES;
    ShiftByteIsIterate(ALL_ONES);
  }

  /** A zero byte in front of a message does not go unnoticed. */
  lemma LeadingZeroIsSeen(data: seq<byte>)
    ensures Crc([0]) == 0xD202EF8D && Crc([0] + data) != Crc(data)
  {
    var r, x, y := Register(ALL_ONES, [0]), Register(ALL_ONES, [0] + data), Register(ALL_ONES, data);
    RegisterOfZeroByte();
    SR.RegisterOfConcat(ShiftBit, Xor, Embed, ALL_ONES, [0], data);
    if x == y {
      StepIsInjective();
      XorIsGroup();
      SR.RegisterInjective(ShiftBit, Xor, Embed, r, ALL_ONES, data);
      assert false;
    }
    assert (x ^ ALL_ONES) ^ ALL_ONES == x && (y ^ ALL_ONES) ^ ALL_ONES == y;
  }

  function UpdateAll(prev: bv32, parts: seq<seq<byte>>): bv32 {
    if parts == [] then prev else Update(UpdateAll(prev, parts[..|parts| - 1]), parts[|parts| - 1])
  }

  function Concat(parts: seq<seq<byte>>): seq<byte> {
    if parts == [] then [] else Concat(parts[..|parts| - 1]) + parts[|parts| - 1]
  }

  /** So does feeding it in any number of parts, starting from 0. */
  lemma {:induction false} UpdateOfAnySplit(parts: seq<seq<byte>>)
    ensures UpdateAll(0, parts) == Crc(Concat(parts))
    decreases |parts|
  {
    ZeroIsEmpty([]);
    if parts != [] {
      var m := |parts| - 1;
      UpdateOfAnySplit(parts[..m]);
      UpdateOfSplit(Concat(parts[..m]), parts[m]);
    }
  }

  // ---- error detection ----

  /** Byte number `k` of a word. */
  function Place(b: byte, k: nat): bv32 {
    match k
    case 0 => b as bv32
    case 1 => (b as bv32) << 8
    case 2 => (b as bv32) << 16
    case 3 => (b as bv32) << 24
    case _ => 0
  }

  lemma PlaceShifts(b: byte, k: nat)
    requires 1 <= k <= 3
    ensures Place(b, k) & 0xFF == 0 && Place(b, k) >> 8 == Place(b, k - 1)
  {
  }

  lemma PlaceDown(b: byte, k: nat)
    requires 1 <= k <= 3
    ensures SR.Iterate(ShiftBit, Place(b, k), 8) == Place(b, k - 1)
  {
    PlaceShifts(b, k);
    ShiftOfHighBytes(Place(b, k));
  }

  lemma PlaceStepsDown(b: byte, k: nat)
    requires k <= 3
    ensures SR.StepsDown(ShiftBit, Embed, Place, b, k)
  {
    if k > 0 {
      PlaceDown(b, k);
      PlaceStepsDown(b, k - 1);
      SR.IterateSplit(ShiftBit, Place(b, k), 8, 8 * (k - 1));
    }
  }

  /** Byte number `k` of a word. */
  function ByteAt(w: bv32, k: nat): byte {
    match k
    case 0 => (w & 0xFF) as byte
    case 1 => ((w >> 8) & 0xFF) as byte
    case 2 => ((w >> 16) & 0xFF) as byte
    case _ => ((w >> 24) & 0xFF) as byte
  }

  function WordOf(a0: byte, a1: byte, a2: byte, a3: byte): bv32 {
    Place(a0, 0) ^ Place(a1, 1) ^ Place(a2, 2) ^ Place(a3, 3)
  }

  lemma WordIsJoin(a0: byte, a1: byte, a2: byte, a3: byte)
    ensures SR.JoinOfFour(Xor, Place, a0, a1, a2, a3) == WordOf(a0, a1, a2, a3)
  {
  }

  lemma BytesOfWord(a0: byte, a1: byte, a2: byte, a3: byte)
    ensures var w := WordOf(a0, a1, a2, a3);
            ByteAt(w, 0) == a0 && ByteAt(w, 1) == a1 && ByteAt(w, 2) == a2 && ByteAt(w, 3) == a3
  {
  }

  lemma SameSumSameBytes(r: bv32, a0: byte, a1: byte, a2: byte, a3: byte, b0: byte, b1: byte, b2: byte, b3: byte)
    requires SR.SumOfFour(Xor, Place, r, a0, a1, a2, a3) == SR.SumOfFour(Xor, Place, r, b0, b1, b2, b3)
    ensures a0 == b0 && a1 == b1 && a2 == b2 && a3 == b3
  {
    XorIsGroup();
    SR.SameSumSameJoin(Xor, Place, r, a0, a1, a2, a3, b0, b1, b2, b3);
    WordIsJoin(a0, a1, a2, a3);
    WordIsJoin(b0, b1, b2, b3);
    SameWordSameBytes(a0, a1, a2, a3, b0, b1, b2, b3);
  }

  lemma SameWordSameBytes(a0: byte, a1: byte, a2: byte, a3: byte, b0: byte, b1: byte, b2: byte, b3: byte)
    requires WordOf(a0, a1, a2, a3) == WordOf(b0, b1, b2, b3)
    ensures a0 == b0 && a1 == b1 && a2 == b2 && a3 == b3
  {
    BytesOfWord(a0, a1, a2, a3);
    BytesOfWord(b0, b1, b2, b3);
  }

  lemma BytesAreDistinct()
    ensures SR.FourDistinct(Xor, Place)
  {
    forall r, a0, a1, a2, a3, b0, b1, b2, b3 |
      SR.SumOfFour(Xor, Place, r, a0, a1, a2, a3) == SR.SumOfFour(Xor, Place, r, b0, b1, b2, b3)
      ensures a0 == b0 && a1 == b1 && a2 == b2 && a3 == b3
    {
      SameSumSameBytes(r, a0, a1, a2, a3, b0, b1, b2, b3);
    }
  }

  /** Two messages that differ only within at most four consecutive bytes have different checksums. */
  lemma DetectsFourByteErrors(prefix: seq<byte>, a: seq<byte>, b: seq<byte>, suffix: seq<byte>)
    requires |a| == |b| <= 4 && a != b
    ensures Crc(prefix + a + suffix) != Crc(prefix + b + suffix)
  {
    StepIsLinear();
    StepIsInjective();
    XorIsGroup();
    BytesStepDown();
    var r := Register(ALL_ONES, prefix);
    if SR.Placed(Xor, Place, r, a) == SR.Placed(Xor, Place, r, b) {
      BytesAreDistinct();
      SR.PlacedInjective(Xor, Place, r, a, b);
    }
    SR.BurstDetected(ShiftBit, Xor, Embed, Place, ALL_ONES, prefix, a, b, suffix);
    var x, y := Register(ALL_ONES, prefix + a + suffix), Register(ALL_ONES, prefix + b + suffix);
    assert (x ^ ALL_ONES) ^ ALL_ONES == x && (y ^ ALL_ONES) ^ ALL_ONES == y;
  }

  lemma BytesStepDown()
    ensures forall k: nat, c: byte | k < 4 :: SR.StepsDown(ShiftBit, Embed, Place, c, k)
  {
    forall k: nat, c: byte | k < 4
      ensures SR.StepsDown(ShiftBit, Embed, Place, c, k)
    {
      PlaceStepsDown(c, k);
    }
  }

  lemma RegisterOfResidue(data: seq<byte>, w: seq<byte>)
    requires |w| == 4
    requires SR.SumOfFour(Xor, Place, Register(ALL_ONES, data), w[0], w[1], w[2], w[3]) == ALL_ONES
    ensures Register(ALL_ONES, data + w) == 0xDEBB20E3
  {
    StepIsLinear();
    BytesStepDown();
    ThirtyTwoSteps();
    SR.AbsorbFour(ShiftBit, Xor, Embed, Place, ALL_ONES, data, w, ALL_ONES, 0xDEBB20E3);
  }

  /** A message followed by its own checksum, low byte first, has the same checksum whatever the message. */
  lemma ResidueIsConstant(data: seq<byte>)
    ensures Crc(data + EncodeWord(Crc(data))) == 0x2144DF1C
  {
    ChecksumCancels(Register(ALL_ONES, data));
    RegisterOfResidue(data, EncodeWord(Crc(data)));
  }

  /** Adding the checksum of a register to it leaves all ones. */
  lemma ChecksumCancels(r: bv32)
    ensures var w := EncodeWord(r ^ ALL_ONES);
            SR.SumOfFour(Xor, Place, r, w[0], w[1], w[2], w[3]) == ALL_ONES
  {
    var c := r ^ ALL_ONES;
    assert c == (c & 0xFF) ^ (((c >> 8) & 0xFF) << 8) ^ (((c >> 16) & 0xFF) << 16) ^ (((c >> 24) & 0xFF) << 24);
  }

  lemma ThirtyTwoSteps()
    ensures SR.Iterate(ShiftBit, ALL_ONES, 32) == 0xDEBB20E3
  {
    ShiftByteIsIterate(0xFFFFFFFF);
    ShiftByteIsIterate(0x2DFD1072);
    ShiftByteIsIterate(0xBE26ED00);
    ShiftByteIsIterate(0x00BE26ED);
    SR.IterateSplit(ShiftBit, ALL_ONES, 8, 24);
    SR.IterateSplit(ShiftBit, 0x2DFD1072, 8, 16);
    SR.IterateSplit(ShiftBit, 0xBE26ED00, 8, 8);
  }
}
