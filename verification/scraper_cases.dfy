/** Worked cases of the Python pipeline on concrete inputs. */
module ScraperCases {
  import opened Text
  import opened Scraper

  /** The dollar mark is found anywhere in the price text, in either
      spelling; a bare "$" marks a peso price. */
  lemma UsdMarkCases()
    ensures IsUsd("US$ 100") && IsUsd("U$S 100") && !IsUsd("$ 100")
  {
    assert OccursAt("US$ 100", "US$", 0);
    assert OccursAt("U$S 100", "U$S", 0);
    var s := "$ 100";
    forall i | 0 <= i <= |s| - 3 ensures !OccursAt(s, "U$S", i) && !OccursAt(s, "US$", i) {
      assert s[i..i + 3][0] == s[i];
      assert s[0] == '$' && s[1] == ' ' && s[2] == '1';
    }
  }

  /** A price text made of a lone separator matches the price pattern but
      leaves no digit, so `bruto` is 0. */
  lemma LoneSeparatorIsZero()
    ensures Bruto(".") == 0
  {
    assert PriceStart(".") == 0;
    assert PriceRun(".") == ".";
    assert RemoveChar(".", '.') == [];
  }
}
