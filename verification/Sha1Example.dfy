/** The digest of "abc" (FIPS 180, appendix A.1), computed step by step: the definition is that of the standard. */
module Sha1Example {
  import opened Sha1Spec

  /** The padded message as a block. */
  predicate IsAbc(m: seq<Word>) {
    m == [0x61626380, 0, 0, 0, 0, 0, 0, 0, 0, 0, 0, 0, 0, 0, 0, 24]
  }

  /** Word t of the schedule. */
  ghost predicate WordIs(m: seq<Word>, t: nat, x: Word) {
    |m| == 16 && W(m, t) == x
  }

  /** The working variables before round t. */
  ghost predicate VarsAre(m: seq<Word>, t: nat, v: Vars) {
    |m| == 16 && Rounds(H0, m, t) == v
  }

  lemma NextWord(m: seq<Word>, t: nat, p: Word, q: Word, r: Word, s: Word, x: Word)
    requires t >= 16 && WordIs(m, t - 3, p) && WordIs(m, t - 8, q) && WordIs(m, t - 14, r) && WordIs(m, t - 16, s)
    requires Mix(p, q, r, s) == x
    ensures WordIs(m, t, x)
  {
  }

  lemma NextVars(m: seq<Word>, t: nat, a: Word, b: Word, c: Word, d: Word, e: Word, w: Word, x: Word)
    requires VarsAre(m, t, Vars(a, b, c, d, e)) && WordIs(m, t, w) && T(a, F(t, b, c, d), e, K(t), w) == x
    ensures VarsAre(m, t + 1, Vars(x, a, Rotl(b, 30), c, d))
  {
  }

  lemma FirstWords(m: seq<Word>)
    requires IsAbc(m)
    ensures WordIs(m, 0, 0x61626380) && WordIs(m, 15, 24) && forall t: nat :: 0 < t < 15 ==> WordIs(m, t, 0)
  {
  }

  lemma FirstVars(m: seq<Word>)
    requires IsAbc(m)
    ensures VarsAre(m, 0, H0)
  {
  }

  lemma Words16(m: seq<Word>)
    requires IsAbc(m)
    ensures WordIs(m, 16, 0xc2c4c700) && WordIs(m, 17, 0) && WordIs(m, 18, 0x00000030)
    ensures WordIs(m, 19, 0x85898e01) && WordIs(m, 20, 0) && WordIs(m, 21, 0x00000060)
    ensures WordIs(m, 22, 0x0b131c03) && WordIs(m, 23, 0x00000030) && WordIs(m, 24, 0x85898ec1)
    ensures WordIs(m, 25, 0x16263806) && WordIs(m, 26, 0) && WordIs(m, 27, 0x00000180)
    ensures WordIs(m, 28, 0x2c4c700c) && WordIs(m, 29, 0x000000f0) && WordIs(m, 30, 0x93afb507)
    ensures WordIs(m, 31, 0x5898e048)
  {
    FirstWords(m);
    NextWord(m, 16, 0, 0, 0, 0x61626380, 0xc2c4c700);
    NextWord(m, 17, 0, 0, 0, 0, 0);
    NextWord(m, 18, 0x00000018, 0, 0, 0, 0x00000030);
    NextWord(m, 19, 0xc2c4c700, 0, 0, 0, 0x85898e01);
    NextWord(m, 20, 0, 0, 0, 0, 0);
    NextWord(m, 21, 0x00000030, 0, 0, 0, 0x00000060);
    NextWord(m, 22, 0x85898e01, 0, 0, 0, 0x0b131c03);
    NextWord(m, 23, 0, 0x00000018, 0, 0, 0x00000030);
    NextWord(m, 24, 0x00000060, 0xc2c4c700, 0, 0, 0x85898ec1);
    NextWord(m, 25, 0x0b131c03, 0, 0, 0, 0x16263806);
    NextWord(m, 26, 0x00000030, 0x00000030, 0, 0, 0);
    NextWord(m, 27, 0x85898ec1, 0x85898e01, 0, 0, 0x00000180);
    NextWord(m, 28, 0x16263806, 0, 0, 0, 0x2c4c700c);
    NextWord(m, 29, 0, 0x00000060, 0x00000018, 0, 0x000000f0);
    NextWord(m, 30, 0x00000180, 0x0b131c03, 0xc2c4c700, 0, 0x93afb507);
    NextWord(m, 31, 0x2c4c700c, 0x00000030, 0, 0x00000018, 0x5898e048);
  }

  lemma Words32(m: seq<Word>)
    requires IsAbc(m)
    ensures WordIs(m, 32, 0x8e9a9202) && WordIs(m, 33, 0x00000600) && WordIs(m, 34, 0xb131c0f0)
    ensures WordIs(m, 35, 0x16263bc6) && WordIs(m, 36, 0x4ebed41e) && WordIs(m, 37, 0x626380a1)
    ensures WordIs(m, 38, 0x16263806) && WordIs(m, 39, 0x000018c0) && WordIs(m, 40, 0xd2e138c4)
    ensures WordIs(m, 41, 0x00000f00) && WordIs(m, 42, 0x3afb5079) && WordIs(m, 43, 0x898e04e5)
    ensures WordIs(m, 44, 0xe2ba3c2b) && WordIs(m, 45, 0x000060c0) && WordIs(m, 46, 0x053a37cd)
    ensures WordIs(m, 47, 0x74458547)
  {
    Words16(m);
    NextWord(m, 32, 0x000000f0, 0x85898ec1, 0x00000030, 0xc2c4c700, 0x8e9a9202);
    NextWord(m, 33, 0x93afb507, 0x16263806, 0x85898e01, 0, 0x00000600);
    NextWord(m, 34, 0x5898e048, 0, 0, 0x00000030, 0xb131c0f0);
    NextWord(m, 35, 0x8e9a9202, 0x00000180, 0x00000060, 0x85898e01, 0x16263bc6);
    NextWord(m, 36, 0x00000600, 0x2c4c700c, 0x0b131c03, 0, 0x4ebed41e);
    NextWord(m, 37, 0xb131c0f0, 0x000000f0, 0x00000030, 0x00000060, 0x626380a1);
    NextWord(m, 38, 0x16263bc6, 0x93afb507, 0x85898ec1, 0x0b131c03, 0x16263806);
    NextWord(m, 39, 0x4ebed41e, 0x5898e048, 0x16263806, 0x00000030, 0x000018c0);
    NextWord(m, 40, 0x626380a1, 0x8e9a9202, 0, 0x85898ec1, 0xd2e138c4);
    NextWord(m, 41, 0x16263806, 0x00000600, 0x00000180, 0x16263806, 0x00000f00);
    NextWord(m, 42, 0x000018c0, 0xb131c0f0, 0x2c4c700c, 0, 0x3afb5079);
    NextWord(m, 43, 0xd2e138c4, 0x16263bc6, 0x000000f0, 0x00000180, 0x898e04e5);
    NextWord(m, 44, 0x00000f00, 0x4ebed41e, 0x93afb507, 0x2c4c700c, 0xe2ba3c2b);
    NextWord(m, 45, 0x3afb5079, 0x626380a1, 0x5898e048, 0x000000f0, 0x000060c0);
    NextWord(m, 46, 0x898e04e5, 0x16263806, 0x8e9a9202, 0x93afb507, 0x053a37cd);
    NextWord(m, 47, 0xe2ba3c2b, 0x000018c0, 0x00000600, 0x5898e048, 0x74458547);
  }

  lemma Words48(m: seq<Word>)
    requires IsAbc(m)
    ensures WordIs(m, 48, 0xda9415ed) && WordIs(m, 49, 0x26380a16) && WordIs(m, 50, 0x626383a1)
    ensures WordIs(m, 51, 0x4ebf54de) && WordIs(m, 52, 0x3835b44b) && WordIs(m, 53, 0x0000f600)
    ensures WordIs(m, 54, 0x1e84c7a3) && WordIs(m, 55, 0x98e04d98) && WordIs(m, 56, 0x651d16a0)
    ensures WordIs(m, 57, 0x62658ca1) && WordIs(m, 58, 0x458544d6) && WordIs(m, 59, 0x44584cb7)
    ensures WordIs(m, 60, 0x7ba06619) && WordIs(m, 61, 0x6380aea2) && WordIs(m, 62, 0x0ae55269)
    ensures WordIs(m, 63, 0x627b49a1)
  {
    Words32(m);
    NextWord(m, 48, 0x000060c0, 0xd2e138c4, 0xb131c0f0, 0x8e9a9202, 0xda9415ed);
    NextWord(m, 49, 0x053a37cd, 0x00000f00, 0x16263bc6, 0x00000600, 0x26380a16);
    NextWord(m, 50, 0x74458547, 0x3afb5079, 0x4ebed41e, 0xb131c0f0, 0x626383a1);
    NextWord(m, 51, 0xda9415ed, 0x898e04e5, 0x626380a1, 0x16263bc6, 0x4ebf54de);
    NextWord(m, 52, 0x26380a16, 0xe2ba3c2b, 0x16263806, 0x4ebed41e, 0x3835b44b);
    NextWord(m, 53, 0x626383a1, 0x000060c0, 0x000018c0, 0x626380a1, 0x0000f600);
    NextWord(m, 54, 0x4ebf54de, 0x053a37cd, 0xd2e138c4, 0x16263806, 0x1e84c7a3);
    NextWord(m, 55, 0x3835b44b, 0x74458547, 0x00000f00, 0x000018c0, 0x98e04d98);
    NextWord(m, 56, 0x0000f600, 0xda9415ed, 0x3afb5079, 0xd2e138c4, 0x651d16a0);
    NextWord(m, 57, 0x1e84c7a3, 0x26380a16, 0x898e04e5, 0x00000f00, 0x62658ca1);
    NextWord(m, 58, 0x98e04d98, 0x626383a1, 0xe2ba3c2b, 0x3afb5079, 0x458544d6);
    NextWord(m, 59, 0x651d16a0, 0x4ebf54de, 0x000060c0, 0x898e04e5, 0x44584cb7);
    NextWord(m, 60, 0x62658ca1, 0x3835b44b, 0x053a37cd, 0xe2ba3c2b, 0x7ba06619);
    NextWord(m, 61, 0x458544d6, 0x0000f600, 0x74458547, 0x000060c0, 0x6380aea2);
    NextWord(m, 62, 0x44584cb7, 0x1e84c7a3, 0xda9415ed, 0x053a37cd, 0x0ae55269);
    NextWord(m, 63, 0x7ba06619, 0x98e04d98, 0x26380a16, 0x74458547, 0x627b49a1);
  }

  lemma Words64(m: seq<Word>)
    requires IsAbc(m)
    ensures WordIs(m, 64, 0x7cd45c9d) && WordIs(m, 65, 0x000f0000) && WordIs(m, 66, 0xfb50753a)
    ensures WordIs(m, 67, 0xec6765e8) && WordIs(m, 68, 0xba3c2be2) && WordIs(m, 69, 0x0060c000)
    ensures WordIs(m, 70, 0x3a37cd05) && WordIs(m, 71, 0x458546f4) && WordIs(m, 72, 0xb8599dd6)
    ensures WordIs(m, 73, 0x380a1a26) && WordIs(m, 74, 0x01e02203) && WordIs(m, 75, 0xe7cc3456)
    ensures WordIs(m, 76, 0xe6e60b69) && WordIs(m, 77, 0x00f60a00) && WordIs(m, 78, 0x5795ef4f)
    ensures WordIs(m, 79, 0x822e0879)
  {
    Words48(m);
    NextWord(m, 64, 0x6380aea2, 0x651d16a0, 0x626383a1, 0xda9415ed, 0x7cd45c9d);
    NextWord(m, 65, 0x0ae55269, 0x62658ca1, 0x4ebf54de, 0x26380a16, 0x000f0000);
    NextWord(m, 66, 0x627b49a1, 0x458544d6, 0x3835b44b, 0x626383a1, 0xfb50753a);
    NextWord(m, 67, 0x7cd45c9d, 0x44584cb7, 0x0000f600, 0x4ebf54de, 0xec6765e8);
    NextWord(m, 68, 0x000f0000, 0x7ba06619, 0x1e84c7a3, 0x3835b44b, 0xba3c2be2);
    NextWord(m, 69, 0xfb50753a, 0x6380aea2, 0x98e04d98, 0x0000f600, 0x0060c000);
    NextWord(m, 70, 0xec6765e8, 0x0ae55269, 0x651d16a0, 0x1e84c7a3, 0x3a37cd05);
    NextWord(m, 71, 0xba3c2be2, 0x627b49a1, 0x62658ca1, 0x98e04d98, 0x458546f4);
    NextWord(m, 72, 0x0060c000, 0x7cd45c9d, 0x458544d6, 0x651d16a0, 0xb8599dd6);
    NextWord(m, 73, 0x3a37cd05, 0x000f0000, 0x44584cb7, 0x62658ca1, 0x380a1a26);
    NextWord(m, 74, 0x458546f4, 0xfb50753a, 0x7ba06619, 0x458544d6, 0x01e02203);
    NextWord(m, 75, 0xb8599dd6, 0xec6765e8, 0x6380aea2, 0x44584cb7, 0xe7cc3456);
    NextWord(m, 76, 0x380a1a26, 0xba3c2be2, 0x0ae55269, 0x7ba06619, 0xe6e60b69);
    NextWord(m, 77, 0x01e02203, 0x0060c000, 0x627b49a1, 0x6380aea2, 0x00f60a00);
    NextWord(m, 78, 0xe7cc3456, 0x3a37cd05, 0x7cd45c9d, 0x0ae55269, 0x5795ef4f);
    NextWord(m, 79, 0xe6e60b69, 0x458546f4, 0x000f0000, 0x627b49a1, 0x822e0879);
  }

  lemma Rounds16(m: seq<Word>)
    requires IsAbc(m)
    ensures VarsAre(m, 16, Vars(0x20bdd62f, 0x196bee77, 0x644a3da5, 0x1181ed99, 0x18c623f9))
  {
    FirstWords(m);
    FirstVars(m);
    NextVars(m, 0, 0x67452301, 0xefcdab89, 0x98badcfe, 0x10325476, 0xc3d2e1f0, 0x61626380, 0x0116fc33);
    NextVars(m, 1, 0x0116fc33, 0x67452301, 0x7bf36ae2, 0x98badcfe, 0x10325476, 0, 0x8990536d);
    NextVars(m, 2, 0x8990536d, 0x0116fc33, 0x59d148c0, 0x7bf36ae2, 0x98badcfe, 0, 0xa1390f08);
    NextVars(m, 3, 0xa1390f08, 0x8990536d, 0xc045bf0c, 0x59d148c0, 0x7bf36ae2, 0, 0xcdd8e11b);
    NextVars(m, 4, 0xcdd8e11b, 0xa1390f08, 0x626414db, 0xc045bf0c, 0x59d148c0, 0, 0xcfd499de);
    NextVars(m, 5, 0xcfd499de, 0xcdd8e11b, 0x284e43c2, 0x626414db, 0xc045bf0c, 0, 0x3fc7ca40);
    NextVars(m, 6, 0x3fc7ca40, 0xcfd499de, 0xf3763846, 0x284e43c2, 0x626414db, 0, 0x993e30c1);
    NextVars(m, 7, 0x993e30c1, 0x3fc7ca40, 0xb3f52677, 0xf3763846, 0x284e43c2, 0, 0x9e8c07d4);
    NextVars(m, 8, 0x9e8c07d4, 0x993e30c1, 0x0ff1f290, 0xb3f52677, 0xf3763846, 0, 0x4b6ae328);
    NextVars(m, 9, 0x4b6ae328, 0x9e8c07d4, 0x664f8c30, 0x0ff1f290, 0xb3f52677, 0, 0x8351f929);
    NextVars(m, 10, 0x8351f929, 0x4b6ae328, 0x27a301f5, 0x664f8c30, 0x0ff1f290, 0, 0xfbda9e89);
    NextVars(m, 11, 0xfbda9e89, 0x8351f929, 0x12dab8ca, 0x27a301f5, 0x664f8c30, 0, 0x63188fe4);
    NextVars(m, 12, 0x63188fe4, 0xfbda9e89, 0x60d47e4a, 0x12dab8ca, 0x27a301f5, 0, 0x4607b664);
    NextVars(m, 13, 0x4607b664, 0x63188fe4, 0x7ef6a7a2, 0x60d47e4a, 0x12dab8ca, 0, 0x9128f695);
    NextVars(m, 14, 0x9128f695, 0x4607b664, 0x18c623f9, 0x7ef6a7a2, 0x60d47e4a, 0, 0x196bee77);
    NextVars(m, 15, 0x196bee77, 0x9128f695, 0x1181ed99, 0x18c623f9, 0x7ef6a7a2, 0x00000018, 0x20bdd62f);
  }

  lemma Rounds32(m: seq<Word>)
    requires IsAbc(m)
    ensures VarsAre(m, 32, Vars(0x3b845d33, 0x1267b407, 0x717eebd7, 0xa0dc2d4b, 0xd2aa1365))
  {
    Rounds16(m);
    Words16(m);
    NextVars(m, 16, 0x20bdd62f, 0x196bee77, 0x644a3da5, 0x1181ed99, 0x18c623f9, 0xc2c4c700, 0x4e925823);
    NextVars(m, 17, 0x4e925823, 0x20bdd62f, 0xc65afb9d, 0x644a3da5, 0x1181ed99, 0, 0x82aa6728);
    NextVars(m, 18, 0x82aa6728, 0x4e925823, 0xc82f758b, 0xc65afb9d, 0x644a3da5, 0x00000030, 0xdc64901d);
    NextVars(m, 19, 0xdc64901d, 0x82aa6728, 0xd3a49608, 0xc82f758b, 0xc65afb9d, 0x85898e01, 0xfd9e1d7d);
    NextVars(m, 20, 0xfd9e1d7d, 0xdc64901d, 0x20aa99ca, 0xd3a49608, 0xc82f758b, 0, 0x1a37b0ca);
    NextVars(m, 21, 0x1a37b0ca, 0xfd9e1d7d, 0x77192407, 0x20aa99ca, 0xd3a49608, 0x00000060, 0x33a23bfc);
    NextVars(m, 22, 0x33a23bfc, 0x1a37b0ca, 0x7f67875f, 0x77192407, 0x20aa99ca, 0x0b131c03, 0x21283486);
    NextVars(m, 23, 0x21283486, 0x33a23bfc, 0x868dec32, 0x7f67875f, 0x77192407, 0x00000030, 0xd541f12d);
    NextVars(m, 24, 0xd541f12d, 0x21283486, 0x0ce88eff, 0x868dec32, 0x7f67875f, 0x85898ec1, 0xc7567dc6);
    NextVars(m, 25, 0xc7567dc6, 0xd541f12d, 0x884a0d21, 0x0ce88eff, 0x868dec32, 0x16263806, 0x48413ba4);
    NextVars(m, 26, 0x48413ba4, 0xc7567dc6, 0x75507c4b, 0x884a0d21, 0x0ce88eff, 0, 0xbe35fbd5);
    NextVars(m, 27, 0xbe35fbd5, 0x48413ba4, 0xb1d59f71, 0x75507c4b, 0x884a0d21, 0x00000180, 0x4aa84d97);
    NextVars(m, 28, 0x4aa84d97, 0xbe35fbd5, 0x12104ee9, 0xb1d59f71, 0x75507c4b, 0x2c4c700c, 0x8370b52e);
    NextVars(m, 29, 0x8370b52e, 0x4aa84d97, 0x6f8d7ef5, 0x12104ee9, 0xb1d59f71, 0x000000f0, 0xc5fbaf5d);
    NextVars(m, 30, 0xc5fbaf5d, 0x8370b52e, 0xd2aa1365, 0x6f8d7ef5, 0x12104ee9, 0x93afb507, 0x1267b407);
    NextVars(m, 31, 0x1267b407, 0xc5fbaf5d, 0xa0dc2d4b, 0xd2aa1365, 0x6f8d7ef5, 0x5898e048, 0x3b845d33);
  }

  lemma Rounds48(m: seq<Word>)
    requires IsAbc(m)
    ensures VarsAre(m, 48, Vars(0xbead02ca, 0xa01b846c, 0x8714787c, 0x503ca382, 0xfb86c6ab))
  {
    Rounds32(m);
    Words32(m);
    NextVars(m, 32, 0x3b845d33, 0x1267b407, 0x717eebd7, 0xa0dc2d4b, 0xd2aa1365, 0x8e9a9202, 0x046faa0a);
    NextVars(m, 33, 0x046faa0a, 0x3b845d33, 0xc499ed01, 0x717eebd7, 0xa0dc2d4b, 0x00000600, 0x2c0ebc11);
    NextVars(m, 34, 0x2c0ebc11, 0x046faa0a, 0xcee1174c, 0xc499ed01, 0x717eebd7, 0xb131c0f0, 0x21796ad4);
    NextVars(m, 35, 0x21796ad4, 0x2c0ebc11, 0x811bea82, 0xcee1174c, 0xc499ed01, 0x16263bc6, 0xdcbbb0cb);
    NextVars(m, 36, 0xdcbbb0cb, 0x21796ad4, 0x4b03af04, 0x811bea82, 0xcee1174c, 0x4ebed41e, 0x0f511fd8);
    NextVars(m, 37, 0x0f511fd8, 0xdcbbb0cb, 0x085e5ab5, 0x4b03af04, 0x811bea82, 0x626380a1, 0xdc63973f);
    NextVars(m, 38, 0xdc63973f, 0x0f511fd8, 0xf72eec32, 0x085e5ab5, 0x4b03af04, 0x16263806, 0x4c986405);
    NextVars(m, 39, 0x4c986405, 0xdc63973f, 0x03d447f6, 0xf72eec32, 0x085e5ab5, 0x000018c0, 0x32de1cba);
    NextVars(m, 40, 0x32de1cba, 0x4c986405, 0xf718e5cf, 0x03d447f6, 0xf72eec32, 0xd2e138c4, 0xfc87dedf);
    NextVars(m, 41, 0xfc87dedf, 0x32de1cba, 0x53261901, 0xf718e5cf, 0x03d447f6, 0x00000f00, 0x970a0d5c);
    NextVars(m, 42, 0x970a0d5c, 0xfc87dedf, 0x8cb7872e, 0x53261901, 0xf718e5cf, 0x3afb5079, 0x7f193dc5);
    NextVars(m, 43, 0x7f193dc5, 0x970a0d5c, 0xff21f7b7, 0x8cb7872e, 0x53261901, 0x898e04e5, 0xee1b1aaf);
    NextVars(m, 44, 0xee1b1aaf, 0x7f193dc5, 0x25c28357, 0xff21f7b7, 0x8cb7872e, 0xe2ba3c2b, 0x40f28e09);
    NextVars(m, 45, 0x40f28e09, 0xee1b1aaf, 0x5fc64f71, 0x25c28357, 0xff21f7b7, 0x000060c0, 0x1c51e1f2);
    NextVars(m, 46, 0x1c51e1f2, 0x40f28e09, 0xfb86c6ab, 0x5fc64f71, 0x25c28357, 0x053a37cd, 0xa01b846c);
    NextVars(m, 47, 0xa01b846c, 0x1c51e1f2, 0x503ca382, 0xfb86c6ab, 0x5fc64f71, 0x74458547, 0xbead02ca);
  }

  lemma Rounds64(m: seq<Word>)
    requires IsAbc(m)
    ensures VarsAre(m, 64, Vars(0x6b61c9e1, 0xb66c020b, 0x9523272c, 0xf5d5b051, 0x8fd4b796))
  {
    Rounds48(m);
    Words48(m);
    NextVars(m, 48, 0xbead02ca, 0xa01b846c, 0x8714787c, 0x503ca382, 0xfb86c6ab, 0xda9415ed, 0xbaf39337);
    NextVars(m, 49, 0xbaf39337, 0xbead02ca, 0x2806e11b, 0x8714787c, 0x503ca382, 0x26380a16, 0x120731c5);
    NextVars(m, 50, 0x120731c5, 0xbaf39337, 0xafab40b2, 0x2806e11b, 0x8714787c, 0x626383a1, 0x641db2ce);
    NextVars(m, 51, 0x641db2ce, 0x120731c5, 0xeebce4cd, 0xafab40b2, 0x2806e11b, 0x4ebf54de, 0x3847ad66);
    NextVars(m, 52, 0x3847ad66, 0x641db2ce, 0x4481cc71, 0xeebce4cd, 0xafab40b2, 0x3835b44b, 0xe490436d);
    NextVars(m, 53, 0xe490436d, 0x3847ad66, 0x99076cb3, 0x4481cc71, 0xeebce4cd, 0x0000f600, 0x27e9f1d8);
    NextVars(m, 54, 0x27e9f1d8, 0xe490436d, 0x8e11eb59, 0x99076cb3, 0x4481cc71, 0x1e84c7a3, 0x7b71f76d);
    NextVars(m, 55, 0x7b71f76d, 0x27e9f1d8, 0x792410db, 0x8e11eb59, 0x99076cb3, 0x98e04d98, 0x5e6456af);
    NextVars(m, 56, 0x5e6456af, 0x7b71f76d, 0x09fa7c76, 0x792410db, 0x8e11eb59, 0x651d16a0, 0xc846093f);
    NextVars(m, 57, 0xc846093f, 0x5e6456af, 0x5edc7ddb, 0x09fa7c76, 0x792410db, 0x62658ca1, 0xd262ff50);
    NextVars(m, 58, 0xd262ff50, 0xc846093f, 0xd79915ab, 0x5edc7ddb, 0x09fa7c76, 0x458544d6, 0x09d785fd);
    NextVars(m, 59, 0x09d785fd, 0xd262ff50, 0xf211824f, 0xd79915ab, 0x5edc7ddb, 0x44584cb7, 0x3f52de5a);
    NextVars(m, 60, 0x3f52de5a, 0x09d785fd, 0x3498bfd4, 0xf211824f, 0xd79915ab, 0x7ba06619, 0xd756c147);
    NextVars(m, 61, 0xd756c147, 0x3f52de5a, 0x4275e17f, 0x3498bfd4, 0xf211824f, 0x6380aea2, 0x548c9cb2);
    NextVars(m, 62, 0x548c9cb2, 0xd756c147, 0x8fd4b796, 0x4275e17f, 0x3498bfd4, 0x0ae55269, 0xb66c020b);
    NextVars(m, 63, 0xb66c020b, 0x548c9cb2, 0xf5d5b051, 0x8fd4b796, 0x4275e17f, 0x627b49a1, 0x6b61c9e1);
  }

  lemma Rounds80(m: seq<Word>)
    requires IsAbc(m)
    ensures VarsAre(m, 80, Vars(0x42541b35, 0x5738d5e1, 0x21834873, 0x681e6df6, 0xd8fdf6ad))
  {
    Rounds64(m);
    Words64(m);
    NextVars(m, 64, 0x6b61c9e1, 0xb66c020b, 0x9523272c, 0xf5d5b051, 0x8fd4b796, 0x7cd45c9d, 0x19dfa7ac);
    NextVars(m, 65, 0x19dfa7ac, 0x6b61c9e1, 0xed9b0082, 0x9523272c, 0xf5d5b051, 0x000f0000, 0x101655f9);
    NextVars(m, 66, 0x101655f9, 0x19dfa7ac, 0x5ad87278, 0xed9b0082, 0x9523272c, 0xfb50753a, 0x0c3df2b4);
    NextVars(m, 67, 0x0c3df2b4, 0x101655f9, 0x0677e9eb, 0x5ad87278, 0xed9b0082, 0xec6765e8, 0x78dd4d2b);
    NextVars(m, 68, 0x78dd4d2b, 0x0c3df2b4, 0x4405957e, 0x0677e9eb, 0x5ad87278, 0xba3c2be2, 0x497093c0);
    NextVars(m, 69, 0x497093c0, 0x78dd4d2b, 0x030f7cad, 0x4405957e, 0x0677e9eb, 0x0060c000, 0x3f2588c2);
    NextVars(m, 70, 0x3f2588c2, 0x497093c0, 0xde37534a, 0x030f7cad, 0x4405957e, 0x3a37cd05, 0xc199f8c7);
    NextVars(m, 71, 0xc199f8c7, 0x3f2588c2, 0x125c24f0, 0xde37534a, 0x030f7cad, 0x458546f4, 0x39859de7);
    NextVars(m, 72, 0x39859de7, 0xc199f8c7, 0x8fc96230, 0x125c24f0, 0xde37534a, 0xb8599dd6, 0xedb42de4);
    NextVars(m, 73, 0xedb42de4, 0x39859de7, 0xf0667e31, 0x8fc96230, 0x125c24f0, 0x380a1a26, 0x11793f6f);
    NextVars(m, 74, 0x11793f6f, 0xedb42de4, 0xce616779, 0xf0667e31, 0x8fc96230, 0x01e02203, 0x5ee76897);
    NextVars(m, 75, 0x5ee76897, 0x11793f6f, 0x3b6d0b79, 0xce616779, 0xf0667e31, 0xe7cc3456, 0x63f7dab7);
    NextVars(m, 76, 0x63f7dab7, 0x5ee76897, 0xc45e4fdb, 0x3b6d0b79, 0xce616779, 0xe6e60b69, 0xa079b7d9);
    NextVars(m, 77, 0xa079b7d9, 0x63f7dab7, 0xd7b9da25, 0xc45e4fdb, 0x3b6d0b79, 0x00f60a00, 0x860d21cc);
    NextVars(m, 78, 0x860d21cc, 0xa079b7d9, 0xd8fdf6ad, 0xd7b9da25, 0xc45e4fdb, 0x5795ef4f, 0x5738d5e1);
    NextVars(m, 79, 0x5738d5e1, 0x860d21cc, 0x681e6df6, 0xd8fdf6ad, 0xd7b9da25, 0x822e0879, 0x42541b35);
  }

  lemma AbcIsOneBlock(msg: seq<Byte>)
    requires msg == [0x61, 0x62, 0x63]
    ensures IsAbc(Padded(msg))
  {
    var first: seq<Byte> := msg + [0x80];
    ZeroWords(13);
    WordsConcat(first, Zeros(52));
    AbcWord(first);
    assert Words(msg + Trailer(3)) == Words(first) + Words(Zeros(52)) by {
      assert msg + Trailer(3) == first + Zeros(52);
    }
    AbcLength(|msg|);
  }

  lemma AbcLength(n: nat)
    requires n == 3
    ensures LengthWords(8 * n % TWO_TO_THE_64) == [0, 24]
  {
    assert 8 * n % TWO_TO_THE_64 == 24;
    assert LengthWords(24) == [0, 24];
  }

  lemma AbcWord(bytes: seq<Byte>)
    requires bytes == [0x61, 0x62, 0x63, 0x80]
    ensures Words(bytes) == [0x61626380]
  {
    assert BigEndian(0x61, 0x62, 0x63, 0x80) == 0x61626380;
  }

  lemma AbcHash(m: seq<Word>)
    requires IsAbc(m)
    ensures Fold(Sha1Compressor(), H0, m) == Vars(0xa9993e36, 0x4706816a, 0xba3e2571, 0x7850c26c, 0x9cd0d89d)
  {
    Rounds80(m);
    FoldOne(Sha1Compressor(), H0, m);
  }

  lemma DigestOfAbc(msg: seq<Byte>)
    requires msg == [0x61, 0x62, 0x63]
    ensures Hash(msg) == Vars(0xa9993e36, 0x4706816a, 0xba3e2571, 0x7850c26c, 0x9cd0d89d)
  {
    AbcIsOneBlock(msg);
    AbcHash(Padded(msg));
  }
}
