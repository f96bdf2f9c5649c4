/** The frequency table of the library, and the facts about it that every bound of the codec rests on. */
module FrequencyTable {
  import opened HuffmanTree
  import opened HuffmanHeight

  // Symbols 1 to 256, sixteen to a row; 256 is the end-of-stream symbol.
  const ROW0: seq<nat> := [4545, 2657, 431, 1950, 919, 444, 482, 2244, 617, 838, 542, 715, 1814, 304, 240, 754]
  const ROW1: seq<nat> := [212, 647, 186, 283, 131, 146, 166, 543, 164, 167, 136, 179, 859, 363, 113, 157]
  const ROW2: seq<nat> := [154, 204, 108, 137, 180, 202, 176, 872, 404, 168, 134, 151, 111, 113, 109, 120]
  const ROW3: seq<nat> := [126, 129, 100, 41, 20, 16, 22, 18, 18, 17, 19, 16, 37, 13, 21, 362]
  const ROW4: seq<nat> := [166, 99, 78, 95, 88, 81, 70, 83, 284, 91, 187, 77, 68, 52, 68, 59]
  const ROW5: seq<nat> := [66, 61, 638, 71, 157, 50, 46, 69, 43, 11, 24, 13, 19, 10, 12, 12]
  const ROW6: seq<nat> := [20, 14, 9, 20, 20, 10, 10, 15, 15, 12, 12, 7, 19, 15, 14, 13]
  const ROW7: seq<nat> := [18, 35, 19, 17, 14, 8, 5, 15, 17, 9, 15, 14, 18, 8, 10, 2173]
  const ROW8: seq<nat> := [134, 157, 68, 188, 60, 170, 60, 194, 62, 175, 71, 148, 67, 167, 78, 211]
  const ROW9: seq<nat> := [67, 156, 69, 1674, 90, 174, 53, 147, 89, 181, 51, 174, 63, 163, 80, 167]
  const ROW10: seq<nat> := [94, 128, 122, 223, 153, 218, 77, 200, 110, 190, 73, 174, 69, 145, 66, 277]
  const ROW11: seq<nat> := [143, 141, 60, 136, 53, 180, 57, 142, 57, 158, 61, 166, 112, 152, 92, 26]
  const ROW12: seq<nat> := [22, 21, 28, 20, 26, 30, 21, 32, 27, 20, 17, 23, 21, 30, 22, 22]
  const ROW13: seq<nat> := [21, 27, 25, 17, 27, 23, 18, 39, 26, 15, 21, 12, 18, 18, 27, 20]
  const ROW14: seq<nat> := [18, 15, 19, 11, 17, 33, 12, 18, 15, 19, 18, 16, 26, 17, 18, 9]
  const ROW15: seq<nat> := [10, 25, 22, 22, 17, 20, 16, 6, 16, 15, 20, 14, 18, 24, 335, 1]

  const TABLE: seq<nat> := [0x4000_0000]
    + (ROW0 + ROW1 + ROW2 + ROW3) + (ROW4 + ROW5 + ROW6 + ROW7)
    + (ROW8 + ROW9 + ROW10 + ROW11) + (ROW12 + ROW13 + ROW14 + ROW15)

  lemma {:induction false} SumConcat(a: seq<nat>, b: seq<nat>)
    ensures Sum(a + b) == Sum(a) + Sum(b)
  {
    if b == [] {
      assert a + b == a;
    } else {
      assert (a + b)[..|a + b| - 1] == a + b[..|b| - 1];
      SumConcat(a, b[..|b| - 1]);
    }
  }

  lemma Sum4(s: seq<nat>)
    requires |s| == 4
    ensures Sum(s) == s[0] + s[1] + s[2] + s[3]
  {
    assert s[..3][..2] == s[..2] && s[..2][..1] == s[..1] && s[..1][..0] == [];
    assert Sum(s[..1]) == s[0];
    assert Sum(s[..2]) == s[0] + s[1];
    assert Sum(s[..3]) == s[0] + s[1] + s[2];
  }

  lemma Sum16(s: seq<nat>)
    requires |s| == 16
    ensures Sum(s) == (s[0] + s[1] + s[2] + s[3]) + (s[4] + s[5] + s[6] + s[7])
                    + (s[8] + s[9] + s[10] + s[11]) + (s[12] + s[13] + s[14] + s[15])
  {
    var a, b, c, d := s[..4], s[4..8], s[8..12], s[12..];
    assert s == a + b + c + d;
    SumConcat(a + b + c, d);
    SumConcat(a + b, c);
    SumConcat(a, b);
    Sum4(a);
    Sum4(b);
    Sum4(c);
    Sum4(d);
  }

  ghost predicate Positive(s: seq<nat>) {
    forall i | 0 <= i < |s| :: s[i] >= 1
  }

  lemma PositiveRows0()
    ensures Positive(ROW0 + ROW1 + ROW2 + ROW3)
  {
  }

  lemma SumRows0()
    ensures Sum(ROW0 + ROW1 + ROW2 + ROW3) == 28266
  {
    Sum16(ROW0); Sum16(ROW1); Sum16(ROW2); Sum16(ROW3);
    SumConcat(ROW0 + ROW1, ROW2);
    SumConcat(ROW0, ROW1);
    SumConcat(ROW0 + ROW1 + ROW2, ROW3);
  }

  lemma PositiveRows1()
    ensures Positive(ROW4 + ROW5 + ROW6 + ROW7)
  {
  }

  lemma SumRows1()
    ensures Sum(ROW4 + ROW5 + ROW6 + ROW7) == 5568
  {
    Sum16(ROW4); Sum16(ROW5); Sum16(ROW6); Sum16(ROW7);
    SumConcat(ROW4 + ROW5, ROW6);
    SumConcat(ROW4, ROW5);
    SumConcat(ROW4 + ROW5 + ROW6, ROW7);
  }

  lemma PositiveRows2()
    ensures Positive(ROW8 + ROW9 + ROW10 + ROW11)
  {
  }

  lemma SumRows2()
    ensures Sum(ROW8 + ROW9 + ROW10 + ROW11) == 9463
  {
    Sum16(ROW8); Sum16(ROW9); Sum16(ROW10); Sum16(ROW11);
    SumConcat(ROW8 + ROW9, ROW10);
    SumConcat(ROW8, ROW9);
    SumConcat(ROW8 + ROW9 + ROW10, ROW11);
  }

  lemma PositiveRows3()
    ensures Positive(ROW12 + ROW13 + ROW14 + ROW15)
  {
  }

  lemma SumRows3()
    ensures Sum(ROW12 + ROW13 + ROW14 + ROW15) == 1598
  {
    Sum16(ROW12); Sum16(ROW13); Sum16(ROW14); Sum16(ROW15);
    SumConcat(ROW12 + ROW13, ROW14);
    SumConcat(ROW12, ROW13);
    SumConcat(ROW12 + ROW13 + ROW14, ROW15);
  }

  /** The table has 257 positive entries, the others sum to 44895 and symbol 0 outweighs them all. */
  lemma TableIsShort()
    ensures |TABLE| == 257 && Sum(TABLE) == 0x4000_0000 + 44895 && ShortTable(TABLE)
  {
    var a, b := ROW0 + ROW1 + ROW2 + ROW3, ROW4 + ROW5 + ROW6 + ROW7;
    var c, d := ROW8 + ROW9 + ROW10 + ROW11, ROW12 + ROW13 + ROW14 + ROW15;
    SumRows0();
    PositiveRows0();
    SumRows1();
    PositiveRows1();
    SumRows2();
    PositiveRows2();
    SumRows3();
    PositiveRows3();
    SumConcat([0x4000_0000] + a + b + c, d);
    SumConcat([0x4000_0000] + a + b, c);
    SumConcat([0x4000_0000] + a, b);
    SumConcat([0x4000_0000], a);
    assert Sum([0x4000_0000]) == 0x4000_0000;
    assert TABLE == [0x4000_0000] + a + b + c + d;
  }
}
