/** The constant table of kernel_crc8.c: it is the generated one for the polynomial 0xD5. */
module Crc8Default {
  import opened BitSequence
  import opened Crc8

  function Row0(l: bv8): bv8 {
    if l == 0 then 0 else if l == 1 then 213 else if l == 2 then 127 else if l == 3 then 170
    else if l == 4 then 254 else if l == 5 then 43 else if l == 6 then 129 else if l == 7 then 84
    else if l == 8 then 41 else if l == 9 then 252 else if l == 10 then 86 else if l == 11 then 131
    else if l == 12 then 215 else if l == 13 then 2 else if l == 14 then 168 else 125
  }

  function Row1(l: bv8): bv8 {
    if l == 0 then 82 else if l == 1 then 135 else if l == 2 then 45 else if l == 3 then 248
    else if l == 4 then 172 else if l == 5 then 121 else if l == 6 then 211 else if l == 7 then 6
    else if l == 8 then 123 else if l == 9 then 174 else if l == 10 then 4 else if l == 11 then 209
    else if l == 12 then 133 else if l == 13 then 80 else if l == 14 then 250 else 47
  }

  function Row2(l: bv8): bv8 {
    if l == 0 then 164 else if l == 1 then 113 else if l == 2 then 219 else if l == 3 then 14
    else if l == 4 then 90 else if l == 5 then 143 else if l == 6 then 37 else if l == 7 then 240
    else if l == 8 then 141 else if l == 9 then 88 else if l == 10 then 242 else if l == 11 then 39
    else if l == 12 then 115 else if l == 13 then 166 else if l == 14 then 12 else 217
  }

  function Row3(l: bv8): bv8 {
    if l == 0 then 246 else if l == 1 then 35 else if l == 2 then 137 else if l == 3 then 92
    else if l == 4 then 8 else if l == 5 then 221 else if l == 6 then 119 else if l == 7 then 162
    else if l == 8 then 223 else if l == 9 then 10 else if l == 10 then 160 else if l == 11 then 117
    else if l == 12 then 33 else if l == 13 then 244 else if l == 14 then 94 else 139
  }

  function Row4(l: bv8): bv8 {
    if l == 0 then 157 else if l == 1 then 72 else if l == 2 then 226 else if l == 3 then 55
    else if l == 4 then 99 else if l == 5 then 182 else if l == 6 then 28 else if l == 7 then 201
    else if l == 8 then 180 else if l == 9 then 97 else if l == 10 then 203 else if l == 11 then 30
    else if l == 12 then 74 else if l == 13 then 159 else if l == 14 then 53 else 224
  }

  function Row5(l: bv8): bv8 {
    if l == 0 then 207 else if l == 1 then 26 else if l == 2 then 176 else if l == 3 then 101
    else if l == 4 then 49 else if l == 5 then 228 else if l == 6 then 78 else if l == 7 then 155
    else if l == 8 then 230 else if l == 9 then 51 else if l == 10 then 153 else if l == 11 then 76
    else if l == 12 then 24 else if l == 13 then 205 else if l == 14 then 103 else 178
  }

  function Row6(l: bv8): bv8 {
    if l == 0 then 57 else if l == 1 then 236 else if l == 2 then 70 else if l == 3 then 147
    else if l == 4 then 199 else if l == 5 then 18 else if l == 6 then 184 else if l == 7 then 109
    else if l == 8 then 16 else if l == 9 then 197 else if l == 10 then 111 else if l == 11 then 186
    else if l == 12 then 238 else if l == 13 then 59 else if l == 14 then 145 else 68
  }

  function Row7(l: bv8): bv8 {
    if l == 0 then 107 else if l == 1 then 190 else if l == 2 then 20 else if l == 3 then 193
    else if l == 4 then 149 else if l == 5 then 64 else if l == 6 then 234 else if l == 7 then 63
    else if l == 8 then 66 else if l == 9 then 151 else if l == 10 then 61 else if l == 11 then 232
    else if l == 12 then 188 else if l == 13 then 105 else if l == 14 then 195 else 22
  }

  function Row8(l: bv8): bv8 {
    if l == 0 then 239 else if l == 1 then 58 else if l == 2 then 144 else if l == 3 then 69
    else if l == 4 then 17 else if l == 5 then 196 else if l == 6 then 110 else if l == 7 then 187
    else if l == 8 then 198 else if l == 9 then 19 else if l == 10 then 185 else if l == 11 then 108
    else if l == 12 then 56 else if l == 13 then 237 else if l == 14 then 71 else 146
  }

  function Row9(l: bv8): bv8 {
    if l == 0 then 189 else if l == 1 then 104 else if l == 2 then 194 else if l == 3 then 23
    else if l == 4 then 67 else if l == 5 then 150 else if l == 6 then 60 else if l == 7 then 233
    else if l == 8 then 148 else if l == 9 then 65 else if l == 10 then 235 else if l == 11 then 62
    else if l == 12 then 106 else if l == 13 then 191 else if l == 14 then 21 else 192
  }

  function Row10(l: bv8): bv8 {
    if l == 0 then 75 else if l == 1 then 158 else if l == 2 then 52 else if l == 3 then 225
    else if l == 4 then 181 else if l == 5 then 96 else if l == 6 then 202 else if l == 7 then 31
    else if l == 8 then 98 else if l == 9 then 183 else if l == 10 then 29 else if l == 11 then 200
    else if l == 12 then 156 else if l == 13 then 73 else if l == 14 then 227 else 54
  }

  function Row11(l: bv8): bv8 {
    if l == 0 then 25 else if l == 1 then 204 else if l == 2 then 102 else if l == 3 then 179
    else if l == 4 then 231 else if l == 5 then 50 else if l == 6 then 152 else if l == 7 then 77
    else if l == 8 then 48 else if l == 9 then 229 else if l == 10 then 79 else if l == 11 then 154
    else if l == 12 then 206 else if l == 13 then 27 else if l == 14 then 177 else 100
  }

  function Row12(l: bv8): bv8 {
    if l == 0 then 114 else if l == 1 then 167 else if l == 2 then 13 else if l == 3 then 216
    else if l == 4 then 140 else if l == 5 then 89 else if l == 6 then 243 else if l == 7 then 38
    else if l == 8 then 91 else if l == 9 then 142 else if l == 10 then 36 else if l == 11 then 241
    else if l == 12 then 165 else if l == 13 then 112 else if l == 14 then 218 else 15
  }

  function Row13(l: bv8): bv8 {
    if l == 0 then 32 else if l == 1 then 245 else if l == 2 then 95 else if l == 3 then 138
    else if l == 4 then 222 else if l == 5 then 11 else if l == 6 then 161 else if l == 7 then 116
    else if l == 8 then 9 else if l == 9 then 220 else if l == 10 then 118 else if l == 11 then 163
    else if l == 12 then 247 else if l == 13 then 34 else if l == 14 then 136 else 93
  }

  function Row14(l: bv8): bv8 {
    if l == 0 then 214 else if l == 1 then 3 else if l == 2 then 169 else if l == 3 then 124
    else if l == 4 then 40 else if l == 5 then 253 else if l == 6 then 87 else if l == 7 then 130
    else if l == 8 then 255 else if l == 9 then 42 else if l == 10 then 128 else if l == 11 then 85
    else if l == 12 then 1 else if l == 13 then 212 else if l == 14 then 126 else 171
  }

  function Row15(l: bv8): bv8 {
    if l == 0 then 132 else if l == 1 then 81 else if l == 2 then 251 else if l == 3 then 46
    else if l == 4 then 122 else if l == 5 then 175 else if l == 6 then 5 else if l == 7 then 208
    else if l == 8 then 173 else if l == 9 then 120 else if l == 10 then 210 else if l == 11 then 7
    else if l == 12 then 83 else if l == 13 then 134 else if l == 14 then 44 else 249
  }

  /** defalut_msb_table. */
  function Default(x: bv8): bv8 {
    var h, l := x >> 4, x & 15;
    if h == 0 then Row0(l) else if h == 1 then Row1(l) else if h == 2 then Row2(l) else if h == 3 then Row3(l)
    else if h == 4 then Row4(l) else if h == 5 then Row5(l) else if h == 6 then Row6(l) else if h == 7 then Row7(l)
    else if h == 8 then Row8(l) else if h == 9 then Row9(l) else if h == 10 then Row10(l) else if h == 11 then Row11(l)
    else if h == 12 then Row12(l) else if h == 13 then Row13(l) else if h == 14 then Row14(l) else Row15(l)
  }

  /** x^8 + x^7 + x^6 + x^4 + x^2 + 1, without its leading term. */
  const POLYNOMIAL: bv8 := 0xD5

  predicate Bit(x: bv8, m: bv8) { x & m != 0 }
  function XorByte(a: bv8, b: bv8): bv8 { a ^ b }
  function UpByte(a: bv8): bv8 { a << 1 }

  function Step(x: bv8): bv8 {
    if Bit(x, 0x80) then XorByte(UpByte(x), POLYNOMIAL) else UpByte(x)
  }

  function Step8(x: bv8): bv8 {
    Step(Step(Step(Step(Step(Step(Step(Step(x))))))))
  }

  lemma LowerHalf(x: bv8)
    requires x < 0x80
    ensures Default(x) == Step8(x)
  {
  }

  lemma UpperHalf(x: bv8)
    requires x >= 0x80
    ensures Default(x) == Step8(x)
  {
  }

  lemma DefaultIsStep8(x: bv8)
    ensures Default(x) == Step8(x)
  {
    hide Default, Step8;
    if x < 0x80 {
      LowerHalf(x);
    } else {
      UpperHalf(x);
    }
  }

  function Mask(i: nat): bv8
    requires i < 8
  {
    if i == 0 then 0x80 else if i == 1 then 0x40 else if i == 2 then 0x20 else if i == 3 then 0x10
    else if i == 4 then 0x08 else if i == 5 then 0x04 else if i == 6 then 0x02 else 0x01
  }

  predicate BitAt(x: bv8, i: nat)
    requires i < 8
  {
    Bit(x, Mask(i))
  }

  /** The bits of a machine byte. */
  function ByteBits(b: bv8): (r: Bits)
    ensures Byte(r)
  {
    seq(8, i requires 0 <= i < 8 => BitAt(b, i))
  }

  lemma BitXor(a: bv8, b: bv8, i: nat)
    requires i < 8
    ensures BitAt(XorByte(a, b), i) == (BitAt(a, i) != BitAt(b, i))
  {
  }

  lemma BitUp(a: bv8, i: nat)
    requires i < 8
    ensures BitAt(UpByte(a), i) == (i < 7 && BitAt(a, i + 1))
  {
  }

  lemma ByteBitsXor(a: bv8, b: bv8)
    ensures ByteBits(XorByte(a, b)) == Add(ByteBits(a), ByteBits(b))
  {
    hide BitAt, XorByte;
    forall i | 0 <= i < 8 ensures ByteBits(XorByte(a, b))[i] == Add(ByteBits(a), ByteBits(b))[i] {
      BitXor(a, b, i);
    }
  }

  lemma ByteBitsUp(x: bv8)
    ensures ByteBits(UpByte(x)) == ByteBits(x)[1..] + [false] && ByteBits(x)[0] == BitAt(x, 0)
  {
    hide BitAt, UpByte;
    forall i | 0 <= i < 8 ensures ByteBits(UpByte(x))[i] == (ByteBits(x)[1..] + [false])[i] {
      BitUp(x, i);
    }
  }

  lemma StepIsShift(x: bv8)
    ensures ByteBits(Step(x)) == Shift(ByteBits(x), ByteBits(POLYNOMIAL))
  {
    hide Bit, XorByte, UpByte, Add, ByteBits;
    ByteBitsUp(x);
    assert BitAt(x, 0) == Bit(x, 0x80);
    ByteBitsXor(UpByte(x), POLYNOMIAL);
  }

  lemma {:induction false} StepsAreShifts(x: bv8, n: nat)
    ensures ByteBits(Steps(x, n)) == Shifts(ByteBits(x), ByteBits(POLYNOMIAL), n)
    decreases n
  {
    hide Step, ByteBits, Shift;
    if n > 0 {
      StepIsShift(x);
      StepsAreShifts(Step(x), n - 1);
    }
  }

  function Steps(x: bv8, n: nat): bv8
    decreases n
  {
    if n == 0 then x else Steps(Step(x), n - 1)
  }

  lemma Step8IsSteps(x: bv8)
    ensures Step8(x) == Steps(x, 8)
  {
    hide Step;
    var x2, x4 := Step(Step(x)), Step(Step(Step(Step(x))));
    var x6 := Step(Step(x4));
    assert Steps(x, 8) == Steps(x2, 6) == Steps(x4, 4) == Steps(x6, 2) == Step(Step(x6));
  }

  /** The default table is the generated one for 0xD5: wherever a table is filled for that
      polynomial, the entry for a byte is the byte the default table holds. */
  lemma DefaultIsGenerated(table: seq<Bits>, x: bv8)
    requires |table| == SIZE && Filled(table, SIZE, ByteBits(POLYNOMIAL))
    ensures var k := Num(ByteBits(x));
      k < SIZE && table[k] == ByteBits(Default(x))
  {
    hide Default, Step8, Steps, Shifts, ByteBits, NumberBits, Num;
    DefaultIsStep8(x);
    Step8IsSteps(x);
    StepsAreShifts(x, 8);
    BitsNum(ByteBits(x));
    TwoOf8();
  }
}
