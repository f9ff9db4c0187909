/**
  Concrete replies run through the sectioner, with the values the source's slice
  arithmetic actually produces for them.
 */
module Scenarios {
  import opened PyStr
  import opened Formatter

  /** A reply that names only its first section. It is written as two literals because
      the verifier reads a literal's characters one by one and reaches only so far
      into a long one. */
  const OnlyDiseases: string := "Possible " + "Diseases: flu."

  /** `find` on text where the pattern's first character first shows up at `at`,
      and the pattern does start there. */
  lemma FindAt(s: string, pat: string, at: int)
    requires |pat| > 0 && IsAt(s, pat, at)
    requires forall j :: 0 <= j < at ==> s[j] != pat[0]
    ensures Find(s, pat) == at
  {
    NoMatchBeforeFirstChar(s, pat, at);
    FindIsFirstOccurrence(s, pat, at);
  }

  /** Text without the pattern's first character does not contain the pattern. */
  lemma Absent(s: string, pat: string)
    requires |pat| > 0 && forall j :: 0 <= j < |s| ==> s[j] != pat[0]
    ensures !Occurs(s, pat)
  {
    NoMatchBeforeFirstChar(s, pat, |s|);
  }

  /** Text that neither holds the noise nor starts or ends with whitespace is its own cleaned form. */
  lemma CleanKeeps(s: string)
    requires |s| > 0 && !IsSpace(s[0]) && !IsSpace(s[|s| - 1])
    requires forall j :: 0 <= j < |s| ==> s[j] != 'S'
    ensures Clean(s) == s
  {
    Absent(s, Noise);
    ReplaceWithoutMatch(s, Noise, "");
    assert s[0..0 + |s|] == s && s[..0] == [] && s[|s|..] == [];
    StripUnique(s, s, 0);
  }

  lemma OnlyDiseasesIsClean()
    ensures Clean(OnlyDiseases) == OnlyDiseases
  {
    CleanKeeps(OnlyDiseases);
  }

  lemma OnlyDiseasesFinds()
    ensures Find(OnlyDiseases, "Possible Diseases") == 0
  {
    FindAt(OnlyDiseases, "Possible Diseases", 0);
  }

  lemma OnlyDiseasesLacksOthers()
    ensures !Occurs(OnlyDiseases, "Ayurvedic Medicines")
    ensures !Occurs(OnlyDiseases, "Ayurvedic Medicines:")
    ensures !Occurs(OnlyDiseases, "Lifestyle Recommendations")
    ensures !Occurs(OnlyDiseases, "Things to Avoid")
  {
    Absent(OnlyDiseases, "Ayurvedic Medicines");
    Absent(OnlyDiseases, "Ayurvedic Medicines:");
    Absent(OnlyDiseases, "Lifestyle Recommendations");
    Absent(OnlyDiseases, "Things to Avoid");
  }

  lemma OnlyDiseasesBounds()
    ensures ContentStart(OnlyDiseases, SectionNames[0]) == 18
    ensures ContentEnd(OnlyDiseases, SectionNames[0]) == -1
  {
    OnlyDiseasesFinds();
    OnlyDiseasesLacksOthers();
  }

  lemma OnlyDiseasesFirstValue()
    ensures SectionContent(OnlyDiseases, SectionNames[0]) == "flu"
  {
    var d := OnlyDiseases;
    OnlyDiseasesBounds();
    assert Occurs(d, SectionNames[0]) by {
      assert IsAt(d, SectionNames[0], 0);
    }
    var sliced := PySlice(d, 18, -1);
    assert sliced == " flu" by {
      assert d[18..22] == " flu";
    }
    assert StripsTo(" flu", "flu", 1) by {
      assert " flu"[1..4] == "flu";
    }
    StripUnique(" flu", "flu", 1);
  }

  lemma OnlyDiseasesOtherValues(k: nat)
    requires 1 <= k < 4
    ensures SectionContent(OnlyDiseases, SectionNames[k]) == []
  {
    OnlyDiseasesLacksOthers();
  }

  /** A reply with only the first header: its value loses the final "." to the
      -1 end index, and the three other values are empty. */
  lemma OnlyDiseasesSections()
    ensures FormatResponse(OnlyDiseases) == [
      Section(SectionNames[0], "flu"),
      Section(SectionNames[1], ""),
      Section(SectionNames[2], ""),
      Section(SectionNames[3], "")]
  {
    OnlyDiseasesIsClean();
    OnlyDiseasesFirstValue();
    OnlyDiseasesOtherValues(1);
    OnlyDiseasesOtherValues(2);
    OnlyDiseasesOtherValues(3);
    EntryIs(OnlyDiseases, 0);
    EntryIs(OnlyDiseases, 1);
    EntryIs(OnlyDiseases, 2);
    EntryIs(OnlyDiseases, 3);
    Entries(FormatResponse(OnlyDiseases), "flu", "", "", "");
  }

  /** A reply holding one copy of the noise wedged inside another. */
  const NestedNoise: string := "Symptoms: fever " + Noise + "Disease:"

  lemma NestedNoiseFirstMatch()
    ensures Find(NestedNoise, Noise) == 16
  {
    var s := NestedNoise;
    assert IsAt(s, Noise, 16);
    forall j | 0 <= j < 16
      ensures !IsAt(s, Noise, j)
    {
      if j == 0 {
        assert s[16] != Noise[16];
      } else {
        assert s[j] != Noise[0];
      }
    }
    FindIsFirstOccurrence(s, Noise, 16);
  }

  /** Removing the first match of the pattern from `x + pat + y`, when `y` is too
      short to hold another, leaves `x + y`. */
  lemma ReplaceSingleMatch(x: string, pat: string, y: string)
    requires pat != [] && Find(x + pat + y, pat) == |x| && |y| < |pat|
    ensures Replace(x + pat + y, pat, "") == x + y
  {
    var s := x + pat + y;
    assert IsAt(s, pat, |x|);
    ReplaceAtFirstMatch(s, pat, "");
    ReplaceTail(s, pat, "", |x| + |pat|);
    assert s[..|x|] == x && s[|x| + |pat|..] == y;
  }

  /** The noise text is the two halves that the nested reply wraps around its inner
      copy. Stated on its own so that the literal comparison is done once, apart from
      the replacement proof that uses it. */
  lemma NoiseSplits()
    ensures "Symptoms: fever " + "Disease:" == Noise
  {
  }

  lemma NestedNoiseReplaced()
    ensures Replace(NestedNoise, Noise, "") == Noise
  {
    NestedNoiseFirstMatch();
    ReplaceSingleMatch("Symptoms: fever ", Noise, "Disease:");
    NoiseSplits();
  }

  /** Noise removal is one left-to-right pass: removing an inner copy of the noise
      joins the text around it into a new copy, which survives cleaning. */
  lemma NoiseRemovalIsSinglePass()
    ensures Clean(NestedNoise) == Noise
    ensures Occurs(Clean(NestedNoise), Noise)
  {
    NestedNoiseReplaced();
    assert Noise[0..0 + |Noise|] == Noise && Noise[..0] == [] && Noise[|Noise|..] == [];
    StripUnique(Noise, Noise, 0);
    OccursSelf(Noise);
  }
}
