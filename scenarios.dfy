/** Worked cases of the default species choice and of value rendering. */
module Scenarios {
  import opened Wrappers
  import opened Seqs
  import opened Text
  import opened Filters
  import opened NumberFormat

  /** A name without the letter K cannot contain the bloom marker. */
  lemma {:induction false} NoMarker(s: string)
    requires 'K' !in s
    ensures !Contains(s, BloomMarker)
  {
    if |s| >= |BloomMarker| {
      assert s[..|BloomMarker|][0] == s[0];
      NoMarker(s[1..]);
    }
  }

  /** Of two options, only the second naming the bloom organism: it alone is selected. */
  lemma SecondMarked(x: string, y: string)
    requires !Contains(x, BloomMarker) && Contains(y, BloomMarker)
    ensures DefaultSpecies([x, y]) == [y]
  {
    assert Filter(HasMarker(), [x, y][1..]) == [y] by {
      assert [x, y][1..][1..] == [];
    }
  }

  /** Of two options, neither naming the bloom organism: the first is selected. */
  lemma NoneMarked(x: string, y: string)
    requires !Contains(x, BloomMarker) && !Contains(y, BloomMarker)
    ensures DefaultSpecies([x, y]) == [x]
  {
    assert forall i :: 0 <= i < 2 ==> !Contains([x, y][i], BloomMarker);
  }

  /** The Alexandrium name does not contain the bloom marker. */
  lemma AlexandriumUnmarked()
    ensures !Contains("Alexandrium sp.", BloomMarker)
  {
    NoMarker("Alexandrium sp.");
  }

  /** The Karenia name contains the bloom marker, at its start. */
  lemma KareniaMarked()
    ensures Contains("Karenia mikimotoi", BloomMarker)
  {
    var k := "Karenia mikimotoi";
    assert k[..|BloomMarker|] == BloomMarker;
  }

  /** The sorted options of a table with an Alexandrium and a Karenia species default to the
      Karenia one. */
  lemma KareniaDefault()
    ensures DefaultSpecies(["Alexandrium sp.", "Karenia mikimotoi"]) == ["Karenia mikimotoi"]
  {
    AlexandriumUnmarked();
    KareniaMarked();
    SecondMarked("Alexandrium sp.", "Karenia mikimotoi");
  }

  /** 1234 gets one separator. */
  lemma GroupedThousands()
    ensures Grouped(1234) == "1,234"
  {
    assert Grouped(1) == "1";
    assert Fixed(234, 3) == "234";
  }

  /** In a float64 column (one with a missing cell) a count of 1234 prints with a
      separator and the float suffix. */
  lemma GroupedExample()
    ensures ValueText(Some(1234), Float64) == "1,234.0"
  {
    GroupedThousands();
  }

  /** In an int64 column (whole numbers, none missing) the same count prints without the
      suffix. */
  lemma IntegerColumnExample()
    ensures ValueText(Some(1234), Int64) == "1,234"
  {
    GroupedThousands();
  }
}
