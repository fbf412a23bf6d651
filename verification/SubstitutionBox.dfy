/** The substitution tables of boot/common/aes.c, and what FIPS 197 section 5.1.1 says they are. */
module SubstitutionBox {
  import opened Gf256

  /** Entry i of a row of sixteen */
  function Pick(i: bv8, v0: bv8, v1: bv8, v2: bv8, v3: bv8, v4: bv8, v5: bv8, v6: bv8, v7: bv8,
                v8: bv8, v9: bv8, va: bv8, vb: bv8, vc: bv8, vd: bv8, ve: bv8, vf: bv8): bv8
  {
    if i & 8 == 0 then
      (if i & 4 == 0 then
        (if i & 2 == 0 then (if i & 1 == 0 then v0 else v1) else (if i & 1 == 0 then v2 else v3))
      else
        (if i & 2 == 0 then (if i & 1 == 0 then v4 else v5) else (if i & 1 == 0 then v6 else v7)))
    else
      (if i & 4 == 0 then
        (if i & 2 == 0 then (if i & 1 == 0 then v8 else v9) else (if i & 1 == 0 then va else vb))
      else
        (if i & 2 == 0 then (if i & 1 == 0 then vc else vd) else (if i & 1 == 0 then ve else vf)))
  }

  /** Sbox[x], sixteen entries a line */
  function Sbox(x: bv8): bv8 {
    var c := x & 0x0f;
    Pick(x >> 4,
      Pick(c, 0x63, 0x7c, 0x77, 0x7b, 0xf2, 0x6b, 0x6f, 0xc5, 0x30, 0x01, 0x67, 0x2b, 0xfe, 0xd7, 0xab, 0x76),
      Pick(c, 0xca, 0x82, 0xc9, 0x7d, 0xfa, 0x59, 0x47, 0xf0, 0xad, 0xd4, 0xa2, 0xaf, 0x9c, 0xa4, 0x72, 0xc0),
      Pick(c, 0xb7, 0xfd, 0x93, 0x26, 0x36, 0x3f, 0xf7, 0xcc, 0x34, 0xa5, 0xe5, 0xf1, 0x71, 0xd8, 0x31, 0x15),
      Pick(c, 0x04, 0xc7, 0x23, 0xc3, 0x18, 0x96, 0x05, 0x9a, 0x07, 0x12, 0x80, 0xe2, 0xeb, 0x27, 0xb2, 0x75),
      Pick(c, 0x09, 0x83, 0x2c, 0x1a, 0x1b, 0x6e, 0x5a, 0xa0, 0x52, 0x3b, 0xd6, 0xb3, 0x29, 0xe3, 0x2f, 0x84),
      Pick(c, 0x53, 0xd1, 0x00, 0xed, 0x20, 0xfc, 0xb1, 0x5b, 0x6a, 0xcb, 0xbe, 0x39, 0x4a, 0x4c, 0x58, 0xcf),
      Pick(c, 0xd0, 0xef, 0xaa, 0xfb, 0x43, 0x4d, 0x33, 0x85, 0x45, 0xf9, 0x02, 0x7f, 0x50, 0x3c, 0x9f, 0xa8),
      Pick(c, 0x51, 0xa3, 0x40, 0x8f, 0x92, 0x9d, 0x38, 0xf5, 0xbc, 0xb6, 0xda, 0x21, 0x10, 0xff, 0xf3, 0xd2),
      Pick(c, 0xcd, 0x0c, 0x13, 0xec, 0x5f, 0x97, 0x44, 0x17, 0xc4, 0xa7, 0x7e, 0x3d, 0x64, 0x5d, 0x19, 0x73),
      Pick(c, 0x60, 0x81, 0x4f, 0xdc, 0x22, 0x2a, 0x90, 0x88, 0x46, 0xee, 0xb8, 0x14, 0xde, 0x5e, 0x0b, 0xdb),
      Pick(c, 0xe0, 0x32, 0x3a, 0x0a, 0x49, 0x06, 0x24, 0x5c, 0xc2, 0xd3, 0xac, 0x62, 0x91, 0x95, 0xe4, 0x79),
      Pick(c, 0xe7, 0xc8, 0x37, 0x6d, 0x8d, 0xd5, 0x4e, 0xa9, 0x6c, 0x56, 0xf4, 0xea, 0x65, 0x7a, 0xae, 0x08),
      Pick(c, 0xba, 0x78, 0x25, 0x2e, 0x1c, 0xa6, 0xb4, 0xc6, 0xe8, 0xdd, 0x74, 0x1f, 0x4b, 0xbd, 0x8b, 0x8a),
      Pick(c, 0x70, 0x3e, 0xb5, 0x66, 0x48, 0x03, 0xf6, 0x0e, 0x61, 0x35, 0x57, 0xb9, 0x86, 0xc1, 0x1d, 0x9e),
      Pick(c, 0xe1, 0xf8, 0x98, 0x11, 0x69, 0xd9, 0x8e, 0x94, 0x9b, 0x1e, 0x87, 0xe9, 0xce, 0x55, 0x28, 0xdf),
      Pick(c, 0x8c, 0xa1, 0x89, 0x0d, 0xbf, 0xe6, 0x42, 0x68, 0x41, 0x99, 0x2d, 0x0f, 0xb0, 0x54, 0xbb, 0x16))
  }

  /** InvSbox[x] */
  function InvSbox(x: bv8): bv8 {
    var c := x & 0x0f;
    Pick(x >> 4,
      Pick(c, 0x52, 0x09, 0x6a, 0xd5, 0x30, 0x36, 0xa5, 0x38, 0xbf, 0x40, 0xa3, 0x9e, 0x81, 0xf3, 0xd7, 0xfb),
      Pick(c, 0x7c, 0xe3, 0x39, 0x82, 0x9b, 0x2f, 0xff, 0x87, 0x34, 0x8e, 0x43, 0x44, 0xc4, 0xde, 0xe9, 0xcb),
      Pick(c, 0x54, 0x7b, 0x94, 0x32, 0xa6, 0xc2, 0x23, 0x3d, 0xee, 0x4c, 0x95, 0x0b, 0x42, 0xfa, 0xc3, 0x4e),
      Pick(c, 0x08, 0x2e, 0xa1, 0x66, 0x28, 0xd9, 0x24, 0xb2, 0x76, 0x5b, 0xa2, 0x49, 0x6d, 0x8b, 0xd1, 0x25),
      Pick(c, 0x72, 0xf8, 0xf6, 0x64, 0x86, 0x68, 0x98, 0x16, 0xd4, 0xa4, 0x5c, 0xcc, 0x5d, 0x65, 0xb6, 0x92),
      Pick(c, 0x6c, 0x70, 0x48, 0x50, 0xfd, 0xed, 0xb9, 0xda, 0x5e, 0x15, 0x46, 0x57, 0xa7, 0x8d, 0x9d, 0x84),
      Pick(c, 0x90, 0xd8, 0xab, 0x00, 0x8c, 0xbc, 0xd3, 0x0a, 0xf7, 0xe4, 0x58, 0x05, 0xb8, 0xb3, 0x45, 0x06),
      Pick(c, 0xd0, 0x2c, 0x1e, 0x8f, 0xca, 0x3f, 0x0f, 0x02, 0xc1, 0xaf, 0xbd, 0x03, 0x01, 0x13, 0x8a, 0x6b),
      Pick(c, 0x3a, 0x91, 0x11, 0x41, 0x4f, 0x67, 0xdc, 0xea, 0x97, 0xf2, 0xcf, 0xce, 0xf0, 0xb4, 0xe6, 0x73),
      Pick(c, 0x96, 0xac, 0x74, 0x22, 0xe7, 0xad, 0x35, 0x85, 0xe2, 0xf9, 0x37, 0xe8, 0x1c, 0x75, 0xdf, 0x6e),
      Pick(c, 0x47, 0xf1, 0x1a, 0x71, 0x1d, 0x29, 0xc5, 0x89, 0x6f, 0xb7, 0x62, 0x0e, 0xaa, 0x18, 0xbe, 0x1b),
      Pick(c, 0xfc, 0x56, 0x3e, 0x4b, 0xc6, 0xd2, 0x79, 0x20, 0x9a, 0xdb, 0xc0, 0xfe, 0x78, 0xcd, 0x5a, 0xf4),
      Pick(c, 0x1f, 0xdd, 0xa8, 0x33, 0x88, 0x07, 0xc7, 0x31, 0xb1, 0x12, 0x10, 0x59, 0x27, 0x80, 0xec, 0x5f),
      Pick(c, 0x60, 0x51, 0x7f, 0xa9, 0x19, 0xb5, 0x4a, 0x0d, 0x2d, 0xe5, 0x7a, 0x9f, 0x93, 0xc9, 0x9c, 0xef),
      Pick(c, 0xa0, 0xe0, 0x3b, 0x4d, 0xae, 0x2a, 0xf5, 0xb0, 0xc8, 0xeb, 0xbb, 0x3c, 0x83, 0x53, 0x99, 0x61),
      Pick(c, 0x17, 0x2b, 0x04, 0x7e, 0xba, 0x77, 0xd6, 0x26, 0xe1, 0x69, 0x14, 0x63, 0x55, 0x21, 0x0c, 0x7d))
  }

  lemma InvSboxOfSbox0(x: bv8)
    requires 0x00 <= x < 0x40
    ensures InvSbox(Sbox(x)) == x
  {}

  lemma InvSboxOfSbox1(x: bv8)
    requires 0x40 <= x < 0x80
    ensures InvSbox(Sbox(x)) == x
  {}

  lemma InvSboxOfSbox2(x: bv8)
    requires 0x80 <= x < 0xc0
    ensures InvSbox(Sbox(x)) == x
  {}

  lemma InvSboxOfSbox3(x: bv8)
    requires 0xc0 <= x
    ensures InvSbox(Sbox(x)) == x
  {}

  /** The two tables undo each other. */
  lemma InvSboxOfSbox(x: bv8)
    ensures InvSbox(Sbox(x)) == x
  {
    if x < 0x40 {
      InvSboxOfSbox0(x);
    } else if x < 0x80 {
      InvSboxOfSbox1(x);
    } else if x < 0xc0 {
      InvSboxOfSbox2(x);
    } else {
      InvSboxOfSbox3(x);
    }
  }

  lemma SboxOfInvSbox0(x: bv8)
    requires 0x00 <= x < 0x40
    ensures Sbox(InvSbox(x)) == x
  {}

  lemma SboxOfInvSbox1(x: bv8)
    requires 0x40 <= x < 0x80
    ensures Sbox(InvSbox(x)) == x
  {}

  lemma SboxOfInvSbox2(x: bv8)
    requires 0x80 <= x < 0xc0
    ensures Sbox(InvSbox(x)) == x
  {}

  lemma SboxOfInvSbox3(x: bv8)
    requires 0xc0 <= x
    ensures Sbox(InvSbox(x)) == x
  {}

  lemma SboxOfInvSbox(x: bv8)
    ensures Sbox(InvSbox(x)) == x
  {
    if x < 0x40 {
      SboxOfInvSbox0(x);
    } else if x < 0x80 {
      SboxOfInvSbox1(x);
    } else if x < 0xc0 {
      SboxOfInvSbox2(x);
    } else {
      SboxOfInvSbox3(x);
    }
  }

  /** The affine transformation of FIPS 197 equation 5.1: y added to its rotations by 1, 2, 3 and 4, and 0x63 */
  function Affine(y: bv8): bv8 {
    y ^ ((y << 1) | (y >> 7)) ^ ((y << 2) | (y >> 6)) ^ ((y << 3) | (y >> 5)) ^ ((y << 4) | (y >> 4)) ^ 0x63
  }

  /** y is the multiplicative inverse of x, with 0 taken as its own inverse. */
  predicate IsReciprocal(x: bv8, y: bv8) {
    if x == 0 then y == 0 else Mul(x, y) == 1
  }

  /** y is the inverse of x other than 0, and the table has its affine transform. */
  predicate IsEntry(x: bv8, y: bv8) {
    Sbox(x) == Affine(y) && Mul(x, y) == 1
  }

  /** p holds of every byte whose entry has been found. */
  ghost predicate HoldsOfEntries(p: bv8 -> bool) {
    forall x, y {:trigger IsEntry(x, y)} :: IsEntry(x, y) ==> p(x)
  }

  lemma Sixteen(p: bv8 -> bool, h: bv8, x: bv8)
    requires x & 0xf0 == h
    requires p(h) && p(h | 1) && p(h | 2) && p(h | 3) && p(h | 4) && p(h | 5) && p(h | 6) && p(h | 7)
    requires p(h | 8) && p(h | 9) && p(h | 10) && p(h | 11) && p(h | 12) && p(h | 13) && p(h | 14) && p(h | 15)
    ensures p(x)
  {
    var l := x & 0x0f;
    assert x == h | l;
  }

  // The sixteen rows of the table, with the reciprocals

  lemma Left0()
    ensures IsEntry(0x01, 0x01) && IsEntry(0x02, 0x8d) && IsEntry(0x03, 0xf6)
    ensures IsEntry(0x04, 0xcb) && IsEntry(0x05, 0x52) && IsEntry(0x06, 0x7b) && IsEntry(0x07, 0xd1)
  {}

  lemma Right0()
    ensures IsEntry(0x08, 0xe8) && IsEntry(0x09, 0x4f) && IsEntry(0x0a, 0x29) && IsEntry(0x0b, 0xc0)
    ensures IsEntry(0x0c, 0xb0) && IsEntry(0x0d, 0xe1) && IsEntry(0x0e, 0xe5) && IsEntry(0x0f, 0xc7)
  {}

  lemma Row0(p: bv8 -> bool, x: bv8)
    requires HoldsOfEntries(p) && x & 0xf0 == 0x00 && p(0)
    ensures p(x)
  {
    Left0();
    Right0();
    Sixteen(p, 0x00, x);
  }

  lemma Left1()
    ensures IsEntry(0x10, 0x74) && IsEntry(0x11, 0xb4) && IsEntry(0x12, 0xaa) && IsEntry(0x13, 0x4b)
    ensures IsEntry(0x14, 0x99) && IsEntry(0x15, 0x2b) && IsEntry(0x16, 0x60) && IsEntry(0x17, 0x5f)
  {}

  lemma Right1()
    ensures IsEntry(0x18, 0x58) && IsEntry(0x19, 0x3f) && IsEntry(0x1a, 0xfd) && IsEntry(0x1b, 0xcc)
    ensures IsEntry(0x1c, 0xff) && IsEntry(0x1d, 0x40) && IsEntry(0x1e, 0xee) && IsEntry(0x1f, 0xb2)
  {}

  lemma Row1(p: bv8 -> bool, x: bv8)
    requires HoldsOfEntries(p) && x & 0xf0 == 0x10
    ensures p(x)
  {
    Left1();
    Right1();
    Sixteen(p, 0x10, x);
  }

  lemma Left2()
    ensures IsEntry(0x20, 0x3a) && IsEntry(0x21, 0x6e) && IsEntry(0x22, 0x5a) && IsEntry(0x23, 0xf1)
    ensures IsEntry(0x24, 0x55) && IsEntry(0x25, 0x4d) && IsEntry(0x26, 0xa8) && IsEntry(0x27, 0xc9)
  {}

  lemma Right2()
    ensures IsEntry(0x28, 0xc1) && IsEntry(0x29, 0x0a) && IsEntry(0x2a, 0x98) && IsEntry(0x2b, 0x15)
    ensures IsEntry(0x2c, 0x30) && IsEntry(0x2d, 0x44) && IsEntry(0x2e, 0xa2) && IsEntry(0x2f, 0xc2)
  {}

  lemma Row2(p: bv8 -> bool, x: bv8)
    requires HoldsOfEntries(p) && x & 0xf0 == 0x20
    ensures p(x)
  {
    Left2();
    Right2();
    Sixteen(p, 0x20, x);
  }

  lemma Left3()
    ensures IsEntry(0x30, 0x2c) && IsEntry(0x31, 0x45) && IsEntry(0x32, 0x92) && IsEntry(0x33, 0x6c)
    ensures IsEntry(0x34, 0xf3) && IsEntry(0x35, 0x39) && IsEntry(0x36, 0x66) && IsEntry(0x37, 0x42)
  {}

  lemma Right3()
    ensures IsEntry(0x38, 0xf2) && IsEntry(0x39, 0x35) && IsEntry(0x3a, 0x20) && IsEntry(0x3b, 0x6f)
    ensures IsEntry(0x3c, 0x77) && IsEntry(0x3d, 0xbb) && IsEntry(0x3e, 0x59) && IsEntry(0x3f, 0x19)
  {}

  lemma Row3(p: bv8 -> bool, x: bv8)
    requires HoldsOfEntries(p) && x & 0xf0 == 0x30
    ensures p(x)
  {
    Left3();
    Right3();
    Sixteen(p, 0x30, x);
  }

  lemma Left4()
    ensures IsEntry(0x40, 0x1d) && IsEntry(0x41, 0xfe) && IsEntry(0x42, 0x37) && IsEntry(0x43, 0x67)
    ensures IsEntry(0x44, 0x2d) && IsEntry(0x45, 0x31) && IsEntry(0x46, 0xf5) && IsEntry(0x47, 0x69)
  {}

  lemma Right4()
    ensures IsEntry(0x48, 0xa7) && IsEntry(0x49, 0x64) && IsEntry(0x4a, 0xab) && IsEntry(0x4b, 0x13)
    ensures IsEntry(0x4c, 0x54) && IsEntry(0x4d, 0x25) && IsEntry(0x4e, 0xe9) && IsEntry(0x4f, 0x09)
  {}

  lemma Row4(p: bv8 -> bool, x: bv8)
    requires HoldsOfEntries(p) && x & 0xf0 == 0x40
    ensures p(x)
  {
    Left4();
    Right4();
    Sixteen(p, 0x40, x);
  }

  lemma Left5()
    ensures IsEntry(0x50, 0xed) && IsEntry(0x51, 0x5c) && IsEntry(0x52, 0x05) && IsEntry(0x53, 0xca)
    ensures IsEntry(0x54, 0x4c) && IsEntry(0x55, 0x24) && IsEntry(0x56, 0x87) && IsEntry(0x57, 0xbf)
  {}

  lemma Right5()
    ensures IsEntry(0x58, 0x18) && IsEntry(0x59, 0x3e) && IsEntry(0x5a, 0x22) && IsEntry(0x5b, 0xf0)
    ensures IsEntry(0x5c, 0x51) && IsEntry(0x5d, 0xec) && IsEntry(0x5e, 0x61) && IsEntry(0x5f, 0x17)
  {}

  lemma Row5(p: bv8 -> bool, x: bv8)
    requires HoldsOfEntries(p) && x & 0xf0 == 0x50
    ensures p(x)
  {
    Left5();
    Right5();
    Sixteen(p, 0x50, x);
  }

  lemma Left6()
    ensures IsEntry(0x60, 0x16) && IsEntry(0x61, 0x5e) && IsEntry(0x62, 0xaf) && IsEntry(0x63, 0xd3)
    ensures IsEntry(0x64, 0x49) && IsEntry(0x65, 0xa6) && IsEntry(0x66, 0x36) && IsEntry(0x67, 0x43)
  {}

  lemma Right6()
    ensures IsEntry(0x68, 0xf4) && IsEntry(0x69, 0x47) && IsEntry(0x6a, 0x91) && IsEntry(0x6b, 0xdf)
    ensures IsEntry(0x6c, 0x33) && IsEntry(0x6d, 0x93) && IsEntry(0x6e, 0x21) && IsEntry(0x6f, 0x3b)
  {}

  lemma Row6(p: bv8 -> bool, x: bv8)
    requires HoldsOfEntries(p) && x & 0xf0 == 0x60
    ensures p(x)
  {
    Left6();
    Right6();
    Sixteen(p, 0x60, x);
  }

  lemma Left7()
    ensures IsEntry(0x70, 0x79) && IsEntry(0x71, 0xb7) && IsEntry(0x72, 0x97) && IsEntry(0x73, 0x85)
    ensures IsEntry(0x74, 0x10) && IsEntry(0x75, 0xb5) && IsEntry(0x76, 0xba) && IsEntry(0x77, 0x3c)
  {}

  lemma Right7()
    ensures IsEntry(0x78, 0xb6) && IsEntry(0x79, 0x70) && IsEntry(0x7a, 0xd0) && IsEntry(0x7b, 0x06)
    ensures IsEntry(0x7c, 0xa1) && IsEntry(0x7d, 0xfa) && IsEntry(0x7e, 0x81) && IsEntry(0x7f, 0x82)
  {}

  lemma Row7(p: bv8 -> bool, x: bv8)
    requires HoldsOfEntries(p) && x & 0xf0 == 0x70
    ensures p(x)
  {
    Left7();
    Right7();
    Sixteen(p, 0x70, x);
  }

  lemma Left8()
    ensures IsEntry(0x80, 0x83) && IsEntry(0x81, 0x7e) && IsEntry(0x82, 0x7f) && IsEntry(0x83, 0x80)
    ensures IsEntry(0x84, 0x96) && IsEntry(0x85, 0x73) && IsEntry(0x86, 0xbe) && IsEntry(0x87, 0x56)
  {}

  lemma Right8()
    ensures IsEntry(0x88, 0x9b) && IsEntry(0x89, 0x9e) && IsEntry(0x8a, 0x95) && IsEntry(0x8b, 0xd9)
    ensures IsEntry(0x8c, 0xf7) && IsEntry(0x8d, 0x02) && IsEntry(0x8e, 0xb9) && IsEntry(0x8f, 0xa4)
  {}

  lemma Row8(p: bv8 -> bool, x: bv8)
    requires HoldsOfEntries(p) && x & 0xf0 == 0x80
    ensures p(x)
  {
    Left8();
    Right8();
    Sixteen(p, 0x80, x);
  }

  lemma Left9()
    ensures IsEntry(0x90, 0xde) && IsEntry(0x91, 0x6a) && IsEntry(0x92, 0x32) && IsEntry(0x93, 0x6d)
    ensures IsEntry(0x94, 0xd8) && IsEntry(0x95, 0x8a) && IsEntry(0x96, 0x84) && IsEntry(0x97, 0x72)
  {}

  lemma Right9()
    ensures IsEntry(0x98, 0x2a) && IsEntry(0x99, 0x14) && IsEntry(0x9a, 0x9f) && IsEntry(0x9b, 0x88)
    ensures IsEntry(0x9c, 0xf9) && IsEntry(0x9d, 0xdc) && IsEntry(0x9e, 0x89) && IsEntry(0x9f, 0x9a)
  {}

  lemma Row9(p: bv8 -> bool, x: bv8)
    requires HoldsOfEntries(p) && x & 0xf0 == 0x90
    ensures p(x)
  {
    Left9();
    Right9();
    Sixteen(p, 0x90, x);
  }

  lemma LeftA()
    ensures IsEntry(0xa0, 0xfb) && IsEntry(0xa1, 0x7c) && IsEntry(0xa2, 0x2e) && IsEntry(0xa3, 0xc3)
    ensures IsEntry(0xa4, 0x8f) && IsEntry(0xa5, 0xb8) && IsEntry(0xa6, 0x65) && IsEntry(0xa7, 0x48)
  {}

  lemma RightA()
    ensures IsEntry(0xa8, 0x26) && IsEntry(0xa9, 0xc8) && IsEntry(0xaa, 0x12) && IsEntry(0xab, 0x4a)
    ensures IsEntry(0xac, 0xce) && IsEntry(0xad, 0xe7) && IsEntry(0xae, 0xd2) && IsEntry(0xaf, 0x62)
  {}

  lemma RowA(p: bv8 -> bool, x: bv8)
    requires HoldsOfEntries(p) && x & 0xf0 == 0xa0
    ensures p(x)
  {
    LeftA();
    RightA();
    Sixteen(p, 0xa0, x);
  }

  lemma LeftB()
    ensures IsEntry(0xb0, 0x0c) && IsEntry(0xb1, 0xe0) && IsEntry(0xb2, 0x1f) && IsEntry(0xb3, 0xef)
    ensures IsEntry(0xb4, 0x11) && IsEntry(0xb5, 0x75) && IsEntry(0xb6, 0x78) && IsEntry(0xb7, 0x71)
  {}

  lemma RightB()
    ensures IsEntry(0xb8, 0xa5) && IsEntry(0xb9, 0x8e) && IsEntry(0xba, 0x76) && IsEntry(0xbb, 0x3d)
    ensures IsEntry(0xbc, 0xbd) && IsEntry(0xbd, 0xbc) && IsEntry(0xbe, 0x86) && IsEntry(0xbf, 0x57)
  {}

  lemma RowB(p: bv8 -> bool, x: bv8)
    requires HoldsOfEntries(p) && x & 0xf0 == 0xb0
    ensures p(x)
  {
    LeftB();
    RightB();
    Sixteen(p, 0xb0, x);
  }

  lemma LeftC()
    ensures IsEntry(0xc0, 0x0b) && IsEntry(0xc1, 0x28) && IsEntry(0xc2, 0x2f) && IsEntry(0xc3, 0xa3)
    ensures IsEntry(0xc4, 0xda) && IsEntry(0xc5, 0xd4) && IsEntry(0xc6, 0xe4) && IsEntry(0xc7, 0x0f)
  {}

  lemma RightC()
    ensures IsEntry(0xc8, 0xa9) && IsEntry(0xc9, 0x27) && IsEntry(0xca, 0x53) && IsEntry(0xcb, 0x04)
    ensures IsEntry(0xcc, 0x1b) && IsEntry(0xcd, 0xfc) && IsEntry(0xce, 0xac) && IsEntry(0xcf, 0xe6)
  {}

  lemma RowC(p: bv8 -> bool, x: bv8)
    requires HoldsOfEntries(p) && x & 0xf0 == 0xc0
    ensures p(x)
  {
    LeftC();
    RightC();
    Sixteen(p, 0xc0, x);
  }

  lemma LeftD()
    ensures IsEntry(0xd0, 0x7a) && IsEntry(0xd1, 0x07) && IsEntry(0xd2, 0xae) && IsEntry(0xd3, 0x63)
    ensures IsEntry(0xd4, 0xc5) && IsEntry(0xd5, 0xdb) && IsEntry(0xd6, 0xe2) && IsEntry(0xd7, 0xea)
  {}

  lemma RightD()
    ensures IsEntry(0xd8, 0x94) && IsEntry(0xd9, 0x8b) && IsEntry(0xda, 0xc4) && IsEntry(0xdb, 0xd5)
    ensures IsEntry(0xdc, 0x9d) && IsEntry(0xdd, 0xf8) && IsEntry(0xde, 0x90) && IsEntry(0xdf, 0x6b)
  {}

  lemma RowD(p: bv8 -> bool, x: bv8)
    requires HoldsOfEntries(p) && x & 0xf0 == 0xd0
    ensures p(x)
  {
    LeftD();
    RightD();
    Sixteen(p, 0xd0, x);
  }

  lemma LeftE()
    ensures IsEntry(0xe0, 0xb1) && IsEntry(0xe1, 0x0d) && IsEntry(0xe2, 0xd6) && IsEntry(0xe3, 0xeb)
    ensures IsEntry(0xe4, 0xc6) && IsEntry(0xe5, 0x0e) && IsEntry(0xe6, 0xcf) && IsEntry(0xe7, 0xad)
  {}

  lemma RightE()
    ensures IsEntry(0xe8, 0x08) && IsEntry(0xe9, 0x4e) && IsEntry(0xea, 0xd7) && IsEntry(0xeb, 0xe3)
    ensures IsEntry(0xec, 0x5d) && IsEntry(0xed, 0x50) && IsEntry(0xee, 0x1e) && IsEntry(0xef, 0xb3)
  {}

  lemma RowE(p: bv8 -> bool, x: bv8)
    requires HoldsOfEntries(p) && x & 0xf0 == 0xe0
    ensures p(x)
  {
    LeftE();
    RightE();
    Sixteen(p, 0xe0, x);
  }

  lemma LeftF()
    ensures IsEntry(0xf0, 0x5b) && IsEntry(0xf1, 0x23) && IsEntry(0xf2, 0x38) && IsEntry(0xf3, 0x34)
    ensures IsEntry(0xf4, 0x68) && IsEntry(0xf5, 0x46) && IsEntry(0xf6, 0x03) && IsEntry(0xf7, 0x8c)
  {}

  lemma RightF()
    ensures IsEntry(0xf8, 0xdd) && IsEntry(0xf9, 0x9c) && IsEntry(0xfa, 0x7d) && IsEntry(0xfb, 0xa0)
    ensures IsEntry(0xfc, 0xcd) && IsEntry(0xfd, 0x1a) && IsEntry(0xfe, 0x41) && IsEntry(0xff, 0x1c)
  {}

  lemma RowF(p: bv8 -> bool, x: bv8)
    requires HoldsOfEntries(p) && x & 0xf0 == 0xf0
    ensures p(x)
  {
    LeftF();
    RightF();
    Sixteen(p, 0xf0, x);
  }

  lemma AllRows(p: bv8 -> bool, x: bv8)
    requires HoldsOfEntries(p) && p(0)
    ensures p(x)
  {
    match x >> 4
    case 0 => Row0(p, x);
    case 1 => Row1(p, x);
    case 2 => Row2(p, x);
    case 3 => Row3(p, x);
    case 4 => Row4(p, x);
    case 5 => Row5(p, x);
    case 6 => Row6(p, x);
    case 7 => Row7(p, x);
    case 8 => Row8(p, x);
    case 9 => Row9(p, x);
    case 10 => RowA(p, x);
    case 11 => RowB(p, x);
    case 12 => RowC(p, x);
    case 13 => RowD(p, x);
    case 14 => RowE(p, x);
    case _ => RowF(p, x);
  }

  lemma Reciprocal(x: bv8) returns (y: bv8)
    ensures IsReciprocal(x, y) && Sbox(x) == Affine(y)
  {
    assert Sbox(0) == Affine(0);
    AllRows(v => v == 0 || exists y: bv8 :: IsEntry(v, y), x);
    if x == 0 {
      y := 0;
    } else {
      y :| IsEntry(x, y);
    }
  }

  /** The examples of FIPS 197 section 5.1.1 and the first and last entries */
  lemma SboxExamples()
    ensures Sbox(0x53) == 0xed && Sbox(0x00) == 0x63 && Sbox(0xff) == 0x16
  {}

  lemma AffineIs(y: bv8)
    ensures Affine(y)
         == y ^ ((y << 1) | (y >> 7)) ^ ((y << 2) | (y >> 6)) ^ ((y << 3) | (y >> 5)) ^ ((y << 4) | (y >> 4)) ^ 0x63
  {}

  /** Every table entry is the affine transform of the multiplicative inverse of its index. */
  lemma SboxIsAffineInverse(x: bv8, entry: bv8) returns (y: bv8)
    requires entry == Sbox(x)
    ensures if x == 0 then y == 0 else Mul(x, y) == 1
    ensures entry
         == y ^ ((y << 1) | (y >> 7)) ^ ((y << 2) | (y >> 6)) ^ ((y << 3) | (y >> 5)) ^ ((y << 4) | (y >> 4)) ^ 0x63
  {
    y := Reciprocal(x);
    AffineIs(y);
  }
}
