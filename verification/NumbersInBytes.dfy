// The encodings of numbers, byte by byte.
module NumbersInBytes {
  import opened Bits
  import opened Bytes
  import opened JamCodec

  lemma LeastFits(v: nat, k: nat)
    requires v < 0x1_0000_0000 && k == LeastWidth(v)
    ensures v < Pow2(7 - k) * Pow256(k)
  {
    WidthLimits();
  }

  lemma WideForm(v: nat, k: nat)
    requires v < 0x1_0000_0000 && k == LeastWidth(v)
    ensures 0 <= 256 - Pow2(8 - k) + v / Pow256(k) < 256
    ensures EncodeNatural(v) == [256 - Pow2(8 - k) + v / Pow256(k)] + LE(v, k)
  {
    LeastFits(v, k);
    HighFits(v, k);
    PrefixBound(k);
    LEOfRemainder(v, k);
  }

  lemma Powers(k: nat)
    requires k <= 4
    ensures Pow2(8 - k) == (if k == 0 then 256 else if k == 1 then 128 else if k == 2 then 64 else if k == 3 then 32 else 16)
    ensures Pow256(k) == (if k == 0 then 1 else if k == 1 then 0x100 else if k == 2 then 0x1_0000
                          else if k == 3 then 0x100_0000 else 0x1_0000_0000)
  {
    assert Pow2(8) == 256 && Pow2(7) == 128 && Pow2(6) == 64 && Pow2(5) == 32 && Pow2(4) == 16;
    assert Pow256(0) == 1 && Pow256(1) == 0x100 && Pow256(2) == 0x1_0000;
    assert Pow256(3) == 0x100_0000 && Pow256(4) == 0x1_0000_0000;
  }

  lemma OneLow(v: nat, k: nat)
    requires k == 1
    ensures LE(v, k) == [v % 0x100]
  {
    assert LE(v / 256, 0) == [];
  }

  lemma TwoLow(v: nat, k: nat)
    requires k == 2
    ensures LE(v, k) == [v % 0x100, v / 0x100 % 0x100]
  {
    OneLow(v, k - 1);
    LESnoc(v, k - 1);
    Powers(k - 1);
  }

  lemma ThreeLow(v: nat, k: nat)
    requires k == 3
    ensures LE(v, k) == [v % 0x100, v / 0x100 % 0x100, v / 0x1_0000 % 0x100]
  {
    TwoLow(v, k - 1);
    LESnoc(v, k - 1);
    Powers(k - 1);
  }

  lemma FourLow(v: nat, k: nat)
    requires k == 4
    ensures LE(v, k) == [v % 0x100, v / 0x100 % 0x100, v / 0x1_0000 % 0x100, v / 0x100_0000 % 0x100]
  {
    ThreeLow(v, k - 1);
    LESnoc(v, k - 1);
    Powers(k - 1);
  }

  /** Each range of numbers has its form: the leading ones of the first byte count the bytes
      behind it, which hold the low part, lowest first. */
  lemma ShortForms(v: nat)
    requires v < 0x4000
    ensures v < 0x80 ==> EncodeNatural(v) == [v]
    ensures 0x80 <= v ==> EncodeNatural(v) == [0x80 + v / 0x100, v % 0x100]
  {
    var k := LeastWidth(v);
    WideForm(v, k);
    Powers(k);
    if v < 0x80 {
      assert LE(v, k) == [];
    } else {
      OneLow(v, k);
    }
  }

  lemma MiddleForms(v: nat)
    requires 0x4000 <= v < 0x1000_0000
    ensures v < 0x20_0000 ==> EncodeNatural(v) == [0xC0 + v / 0x1_0000, v % 0x100, v / 0x100 % 0x100]
    ensures 0x20_0000 <= v ==>
              EncodeNatural(v) == [0xE0 + v / 0x100_0000, v % 0x100, v / 0x100 % 0x100, v / 0x1_0000 % 0x100]
  {
    var k := LeastWidth(v);
    WideForm(v, k);
    Powers(k);
    if v < 0x20_0000 {
      TwoLow(v, k);
    } else {
      ThreeLow(v, k);
    }
  }

  lemma LongForm(v: nat)
    requires 0x1000_0000 <= v < 0x1_0000_0000
    ensures EncodeNatural(v)
            == [0xF0, v % 0x100, v / 0x100 % 0x100, v / 0x1_0000 % 0x100, v / 0x100_0000 % 0x100]
  {
    var k := LeastWidth(v);
    WideForm(v, k);
    Powers(k);
    FourLow(v, k);
  }
}
