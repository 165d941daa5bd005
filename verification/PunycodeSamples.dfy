/** Values of the reference decoder of section 6.2 of RFC 3492, in numbers: sample strings of its section 7.1. */
module PunycodeSamples {
  import opened Common
  import opened Punycode

  /** One insertion of the decoder, with what it reads and where it leads. */
  lemma Step(s: seq<int>, pos: nat, st: Decoder, i': int, pos': nat, at: nat, next: Decoder)
    requires pos < |s| && pos' <= |s| && st.i <= i' && at <= |st.out|
    requires ReadVarInt(s, pos, st.i, 1, 36, st.bias) == Some((i', pos'))
    requires i' == (|st.out| + 1) * (next.n - st.n) + at && next.n >= st.n && next.i == at + 1
    requires Bias(i' - st.i, |st.out| + 1, st.i == 0) == next.bias
    requires next.out == st.out[..at] + [next.n] + st.out[at..]
    ensures Deltas(s, pos, st) == Deltas(s, pos', next)
  {
    hide Bias, ReadVarInt, Deltas;
    DeltasOnce(s, pos, st);
    DivUnique(i', |st.out| + 1, next.n - st.n, at);
  }

  lemma DeltasEnd(s: seq<int>, st: Decoder)
    ensures Deltas(s, |s|, st) == Some(st)
  {
  }

  lemma DecodeWith(s: seq<int>, basics: seq<int>)
    requires LastDelimiter(s) == |basics| > 0 && basics == s[..|basics|]
    requires forall j :: 0 <= j < |basics| ==> basics[j] < 128
    ensures Decode(s) == match Deltas(s, |basics| + 1, Decoder(128, 0, 72, basics))
                         case None => None
                         case Some(st) => Some(st.out)
  {
  }

  /** `tda` is U+00FC. */
  lemma OneUmlaut()
    ensures Decode([0x74, 0x64, 0x61]) == Some([0xFC]) && Lower([0x74, 0x64, 0x61])
  {
    var s := [0x74, 0x64, 0x61];
    hide Insert;
    Step(s, 0, Decoder(128, 0, 72, []), 124, 3, 0, Decoder(0xFC, 1, 0, [0xFC]));
    assert LastDelimiter(s) == -1 && s[..0] == [];
  }

  /** Sample (S), `-> $1.00 <--`: basic code points only. */
  lemma PriceArrows()
    ensures Decode([0x2D, 0x3E, 0x20, 0x24, 0x31, 0x2E, 0x30, 0x30, 0x20, 0x3C, 0x2D, 0x2D]) ==
      Some([0x2D, 0x3E, 0x20, 0x24, 0x31, 0x2E, 0x30, 0x30, 0x20, 0x3C, 0x2D])
  {
    var s := [0x2D, 0x3E, 0x20, 0x24, 0x31, 0x2E, 0x30, 0x30, 0x20, 0x3C, 0x2D, 0x2D];
    assert s[..11] == [0x2D, 0x3E, 0x20, 0x24, 0x31, 0x2E, 0x30, 0x30, 0x20, 0x3C, 0x2D];
  }

  /** Sample (Q), `de-jg4avhby1noc0d`: seven insertions around two basic code points. */
  const RUMBA: seq<int> := [0x64, 0x65, 0x2D, 0x6A, 0x67, 0x34, 0x61, 0x76, 0x68, 0x62, 0x79, 0x31, 0x6E, 0x6F, 0x63,
    0x30, 0x64]

  lemma Rumba1()
    ensures Deltas(RUMBA, 3, Decoder(0x80, 0, 72, [0x64, 0x65])) ==
      Deltas(RUMBA, 7, Decoder(0x30A3, 1, 23, [0x30A3, 0x64, 0x65]))
  {
    hide Insert, Deltas;
    Step(RUMBA, 3, Decoder(0x80, 0, 72, [0x64, 0x65]), 36969, 7, 0, Decoder(0x30A3, 1, 23, [0x30A3, 0x64, 0x65]));
  }

  lemma Rumba2()
    ensures Deltas(RUMBA, 7, Decoder(0x30A3, 1, 23, [0x30A3, 0x64, 0x65])) ==
      Deltas(RUMBA, 9, Decoder(0x30D0, 4, 26, [0x30A3, 0x64, 0x65, 0x30D0]))
  {
    hide Insert, Deltas;
    Step(RUMBA, 7, Decoder(0x30A3, 1, 23, [0x30A3, 0x64, 0x65]), 183, 9, 3, Decoder(0x30D0, 4, 26, [0x30A3, 0x64,
      0x65, 0x30D0]));
  }

  lemma Rumba3()
    ensures Deltas(RUMBA, 9, Decoder(0x30D0, 4, 26, [0x30A3, 0x64, 0x65, 0x30D0])) ==
      Deltas(RUMBA, 10, Decoder(0x30D1, 1, 0, [0x30D1, 0x30A3, 0x64, 0x65, 0x30D0]))
  {
    hide Insert, Deltas;
    Step(RUMBA, 9, Decoder(0x30D0, 4, 26, [0x30A3, 0x64, 0x65, 0x30D0]), 5, 10, 0, Decoder(0x30D1, 1, 0, [0x30D1,
      0x30A3, 0x64, 0x65, 0x30D0]));
  }

  lemma Rumba4()
    ensures Deltas(RUMBA, 10, Decoder(0x30D1, 1, 0, [0x30D1, 0x30A3, 0x64, 0x65, 0x30D0])) ==
      Deltas(RUMBA, 11, Decoder(0x30D5, 2, 9, [0x30D1, 0x30D5, 0x30A3, 0x64, 0x65, 0x30D0]))
  {
    hide Insert, Deltas;
    Step(RUMBA, 10, Decoder(0x30D1, 1, 0, [0x30D1, 0x30A3, 0x64, 0x65, 0x30D0]), 25, 11, 1, Decoder(0x30D5, 2, 9,
      [0x30D1, 0x30D5, 0x30A3, 0x64, 0x65, 0x30D0]));
  }

  lemma Rumba5()
    ensures Deltas(RUMBA, 11, Decoder(0x30D5, 2, 9, [0x30D1, 0x30D5, 0x30A3, 0x64, 0x65, 0x30D0])) ==
      Deltas(RUMBA, 13, Decoder(0x30EB, 6, 25, [0x30D1, 0x30D5, 0x30A3, 0x64, 0x65, 0x30EB, 0x30D0]))
  {
    hide Insert, Deltas;
    Step(RUMBA, 11, Decoder(0x30D5, 2, 9, [0x30D1, 0x30D5, 0x30A3, 0x64, 0x65, 0x30D0]), 159, 13, 5, Decoder(0x30EB,
      6, 25, [0x30D1, 0x30D5, 0x30A3, 0x64, 0x65, 0x30EB, 0x30D0]));
  }

  lemma Rumba6()
    ensures Deltas(RUMBA, 13, Decoder(0x30EB, 6, 25, [0x30D1, 0x30D5, 0x30A3, 0x64, 0x65, 0x30EB, 0x30D0])) ==
      Deltas(RUMBA, 15, Decoder(0x30F3, 7, 17, [0x30D1, 0x30D5, 0x30A3, 0x64, 0x65, 0x30EB, 0x30F3, 0x30D0]))
  {
    hide Insert, Deltas;
    Step(RUMBA, 13, Decoder(0x30EB, 6, 25, [0x30D1, 0x30D5, 0x30A3, 0x64, 0x65, 0x30EB, 0x30D0]), 70, 15, 6,
      Decoder(0x30F3, 7, 17, [0x30D1, 0x30D5, 0x30A3, 0x64, 0x65, 0x30EB, 0x30F3, 0x30D0]));
  }

  lemma Rumba7()
    ensures Deltas(RUMBA, 15, Decoder(0x30F3, 7, 17, [0x30D1, 0x30D5, 0x30A3, 0x64, 0x65, 0x30EB, 0x30F3, 0x30D0]))
      ==
      Deltas(RUMBA, 17, Decoder(0x30FC, 4, 18, [0x30D1, 0x30D5, 0x30A3, 0x30FC, 0x64, 0x65, 0x30EB, 0x30F3, 0x30D0]))
  {
    hide Insert, Deltas;
    Step(RUMBA, 15, Decoder(0x30F3, 7, 17, [0x30D1, 0x30D5, 0x30A3, 0x64, 0x65, 0x30EB, 0x30F3, 0x30D0]), 84, 17, 3,
      Decoder(0x30FC, 4, 18, [0x30D1, 0x30D5, 0x30A3, 0x30FC, 0x64, 0x65, 0x30EB, 0x30F3, 0x30D0]));
  }

  lemma Rumba()
    ensures Decode(RUMBA) == Some([0x30D1, 0x30D5, 0x30A3, 0x30FC, 0x64, 0x65, 0x30EB, 0x30F3, 0x30D0]) && Lower(RUMBA)
  {
    hide Deltas;
    Rumba1();
    Rumba2();
    Rumba3();
    Rumba4();
    Rumba5();
    Rumba6();
    Rumba7();
    LastDelimiterIs(RUMBA, 2);
    DecodeWith(RUMBA, [0x64, 0x65]);
    DeltasEnd(RUMBA, Decoder(0x30FC, 4, 18, [0x30D1, 0x30D5, 0x30A3, 0x30FC, 0x64, 0x65, 0x30EB, 0x30F3, 0x30D0]));
  }
}
