/**
  The response sectioner: it turns the completion service's free-text reply into an
  ordered mapping from the four fixed section headers to the text found under each.
  Headers are located by plain substring search and the text between them is cut
  out with Python slice arithmetic, so a missing or misplaced header degrades the
  result silently instead of raising an error.
 */
module Formatter {
  import opened PyStr

  /** Text the model sometimes echoes back from the prompt's worked example. */
  const Noise: string := "Symptoms: fever Disease:"

  /** The section headers, in the order the result lists them. */
  const SectionNames: seq<string> :=
    ["Possible Diseases", "Ayurvedic Medicines", "Lifestyle Recommendations", "Things to Avoid"]

  /** One entry of the result mapping: a header and the text found under it. */
  datatype Section = Section(name: string, content: string)

  /** The reply with every occurrence of the noise text removed and the whole
      stripped: the text every header search runs on. */
  function Clean(response: string): (c: string)
    ensures IsStripped(c)
  {
    Strip(Replace(response, Noise, ""))
  }

  /** A reply without the noise text is only stripped. */
  lemma CleanWithoutNoise(response: string)
    requires !Occurs(response, Noise)
    ensures Clean(response) == Strip(response)
  {
    ReplaceWithoutMatch(response, Noise, "");
  }

  /** Index just past the header and the one character after it (meant to be its colon). */
  function ContentStart(cleaned: string, section: string): (r: int)
    ensures Occurs(cleaned, section) ==>
      && IsAt(cleaned, section, r - |section| - 1)
      && forall j :: 0 <= j < r - |section| - 1 ==> !IsAt(cleaned, section, j)
    ensures !Occurs(cleaned, section) ==> r == |section|
  {
    Find(cleaned, section) + |section| + 1
  }

  /** Where a section's content stops: the first occurrence of the next header with
      its colon (-1 when absent), or the end of the text for the last section. */
  function ContentEnd(cleaned: string, section: string): (r: int)
    ensures -1 <= r <= |cleaned|
    ensures (forall k :: 0 <= k < 3 ==> section != SectionNames[k]) ==> r == |cleaned|
  {
    assert SectionNames[0] == "Possible Diseases" && SectionNames[1] == "Ayurvedic Medicines";
    assert SectionNames[2] == "Lifestyle Recommendations";
    if section == "Possible Diseases" then Find(cleaned, "Ayurvedic Medicines:")
    else if section == "Ayurvedic Medicines" then Find(cleaned, "Lifestyle Recommendations:")
    else if section == "Lifestyle Recommendations" then Find(cleaned, "Things to Avoid:")
    else |cleaned|
  }

  /** The text filed under `section`: empty when the header is absent, otherwise
      the stripped slice from `ContentStart` to `ContentEnd`. */
  function SectionContent(cleaned: string, section: string): (v: string)
    ensures IsStripped(v)
    ensures !Occurs(cleaned, section) ==> v == []
  {
    if Occurs(cleaned, section) then
      Strip(PySlice(cleaned, ContentStart(cleaned, section), ContentEnd(cleaned, section)))
    else
      []
  }

  /** The whole sectioner: four entries, keyed by the four headers in their fixed
      order, whatever the reply holds. Each value has no whitespace at either end,
      and is empty when its header is missing from the cleaned reply. */
  function FormatResponse(response: string): (r: seq<Section>)
    ensures |r| == |SectionNames|
    ensures forall k :: 0 <= k < |r| ==> r[k].name == SectionNames[k]
    ensures forall k :: 0 <= k < |r| ==> IsStripped(r[k].content)
    ensures forall k :: 0 <= k < |r| && !Occurs(Clean(response), SectionNames[k]) ==> r[k].content == []
  {
    var cleaned := Clean(response);
    seq(|SectionNames|, k requires 0 <= k < |SectionNames| =>
      Section(SectionNames[k], SectionContent(cleaned, SectionNames[k])))
  }

  // ---------------------------------------------------------------- properties

  /** Entry `k` of the result pairs header `k` with what it finds in the cleaned reply. */
  lemma EntryIs(response: string, k: nat)
    requires k < |SectionNames|
    ensures FormatResponse(response)[k] == Section(SectionNames[k], SectionContent(Clean(response), SectionNames[k]))
  {
  }

  /** Four entries keyed by the four headers in order are the display of their values. */
  lemma Entries(r: seq<Section>, v0: string, v1: string, v2: string, v3: string)
    requires |r| == |SectionNames|
    requires forall k :: 0 <= k < |r| ==> r[k].name == SectionNames[k]
    requires r[0].content == v0 && r[1].content == v1 && r[2].content == v2 && r[3].content == v3
    ensures r == [
      Section(SectionNames[0], v0), Section(SectionNames[1], v1),
      Section(SectionNames[2], v2), Section(SectionNames[3], v3)]
  {
  }

  /** For the first three sections the delimiter is the next header of the fixed
      order written with a trailing colon. */
  lemma DelimiterIsNextHeader(cleaned: string, k: nat)
    requires k < 3
    ensures ContentEnd(cleaned, SectionNames[k]) == Find(cleaned, SectionNames[k + 1] + ":")
  {
    if k == 0 {
      assert SectionNames[1] + ":" == "Ayurvedic Medicines:";
    } else if k == 1 {
      assert SectionNames[2] + ":" == "Lifestyle Recommendations:";
    } else {
      assert SectionNames[3] + ":" == "Things to Avoid:";
    }
  }

  /** Every value is a piece of the cleaned reply: the sectioner never invents text. */
  lemma ValuesArePieces(response: string)
    ensures forall k :: 0 <= k < |SectionNames| ==>
      Occurs(Clean(response), FormatResponse(response)[k].content)
  {
    var c := Clean(response);
    forall k | 0 <= k < |SectionNames|
      ensures Occurs(c, FormatResponse(response)[k].content)
    {
      var name := SectionNames[k];
      if Occurs(c, name) {
        var sliced := PySlice(c, ContentStart(c, name), ContentEnd(c, name));
        PySliceOccurs(c, ContentStart(c, name), ContentEnd(c, name));
        StripOccurs(sliced);
        OccursTransitive(c, sliced, Strip(sliced));
      } else {
        assert IsAt(c, [], 0);
      }
    }
  }

  // The four rules below are stated first about `SectionContent` on a cleaned text,
  // then about the entries of `FormatResponse`.

  /** A header followed, after its colon, by its delimiter gets exactly the stripped
      text between the two. */
  lemma InOrderContent(c: string, k: nat)
    requires k < 3
    requires Occurs(c, SectionNames[k]) && Occurs(c, SectionNames[k + 1] + ":")
    requires ContentStart(c, SectionNames[k]) <= Find(c, SectionNames[k + 1] + ":")
    ensures SectionContent(c, SectionNames[k])
         == Strip(c[ContentStart(c, SectionNames[k])..Find(c, SectionNames[k + 1] + ":")])
  {
    DelimiterIsNextHeader(c, k);
  }

  /** When the delimiter is missing, `find` answers -1, the slice ends at
      `len - 1`, and the last character of the cleaned reply is cut off. */
  lemma MissingDelimiterContent(c: string, k: nat)
    requires k < 3
    requires Occurs(c, SectionNames[k]) && !Occurs(c, SectionNames[k + 1] + ":")
    ensures |c| > 0
    ensures var start := ContentStart(c, SectionNames[k]);
      SectionContent(c, SectionNames[k]) == if start < |c| - 1 then Strip(c[start..|c| - 1]) else []
    ensures |c| > 0 && Occurs(c[..|c| - 1], SectionContent(c, SectionNames[k]))
  {
    var name := SectionNames[k];
    assert |name| > 0;
    DelimiterIsNextHeader(c, k);
    assert ContentEnd(c, name) == -1;
    var start := ContentStart(c, name);
    assert start > 0;
    var v := SectionContent(c, name);
    assert v == Strip(PySlice(c, start, -1));
    assert PySlice(c, start, -1) == if start < |c| - 1 then c[start..|c| - 1] else [];
    if start < |c| - 1 {
      var piece := c[start..|c| - 1];
      StripOccurs(piece);
      assert c[..|c| - 1][start..start + |piece|] == piece;
      assert IsAt(c[..|c| - 1], piece, start);
      OccursTransitive(c[..|c| - 1], piece, v);
    } else {
      assert IsAt(c[..|c| - 1], v, 0);
    }
  }

  /** A delimiter that comes no later than the header's content start (sections out
      of order) makes the slice empty, so the section's value is empty. */
  lemma OutOfOrderContent(c: string, k: nat)
    requires k < 3
    requires Occurs(c, SectionNames[k]) && Occurs(c, SectionNames[k + 1] + ":")
    requires Find(c, SectionNames[k + 1] + ":") <= ContentStart(c, SectionNames[k])
    ensures SectionContent(c, SectionNames[k]) == []
  {
    DelimiterIsNextHeader(c, k);
  }

  /** The last section always runs to the end of the cleaned reply. */
  lemma LastContent(c: string)
    requires Occurs(c, SectionNames[3])
    ensures var start := ContentStart(c, SectionNames[3]);
      SectionContent(c, SectionNames[3]) == if start < |c| then Strip(c[start..]) else []
  {
    var name := SectionNames[3];
    assert ContentEnd(c, name) == |c| by {
      assert name != "Possible Diseases" && name != "Ayurvedic Medicines";
      assert name != "Lifestyle Recommendations";
    }
    var start := ContentStart(c, name);
    assert start > 0;
    assert PySlice(c, start, |c|) == if start < |c| then c[start..] else [];
  }

  /** Entry `k` of the result, when its header is followed after its colon by the
      next header, is exactly the stripped text of the cleaned reply between the two. */
  lemma InOrderSection(response: string, k: nat)
    requires k < 3
    requires var c := Clean(response);
      && Occurs(c, SectionNames[k]) && Occurs(c, SectionNames[k + 1] + ":")
      && ContentStart(c, SectionNames[k]) <= Find(c, SectionNames[k + 1] + ":")
    ensures var c := Clean(response);
      FormatResponse(response)[k].content
        == Strip(c[ContentStart(c, SectionNames[k])..Find(c, SectionNames[k + 1] + ":")])
  {
    InOrderContent(Clean(response), k);
  }

  /** Entry `k` of the result, when the next header with its colon is missing, is the
      stripped text from its content start up to, but not including, the last
      character of the cleaned reply; the value is a piece of that shortened text. */
  lemma MissingDelimiterDropsLastChar(response: string, k: nat)
    requires k < 3
    requires var c := Clean(response);
      Occurs(c, SectionNames[k]) && !Occurs(c, SectionNames[k + 1] + ":")
    ensures |Clean(response)| > 0
    ensures var c := Clean(response); var start := ContentStart(c, SectionNames[k]);
      FormatResponse(response)[k].content == if start < |c| - 1 then Strip(c[start..|c| - 1]) else []
    ensures var c := Clean(response);
      |c| > 0 && Occurs(c[..|c| - 1], FormatResponse(response)[k].content)
  {
    MissingDelimiterContent(Clean(response), k);
  }

  /** Entry `k` of the result is empty when the next header comes no later than its
      content start. */
  lemma OutOfOrderSectionIsEmpty(response: string, k: nat)
    requires k < 3
    requires var c := Clean(response);
      && Occurs(c, SectionNames[k]) && Occurs(c, SectionNames[k + 1] + ":")
      && Find(c, SectionNames[k + 1] + ":") <= ContentStart(c, SectionNames[k])
    ensures FormatResponse(response)[k].content == []
  {
    OutOfOrderContent(Clean(response), k);
  }

  /** The last entry of the result runs to the end of the cleaned reply. */
  lemma LastSectionRunsToEnd(response: string)
    requires Occurs(Clean(response), SectionNames[3])
    ensures var c := Clean(response); var start := ContentStart(c, SectionNames[3]);
      FormatResponse(response)[3].content == if start < |c| then Strip(c[start..]) else []
  {
    LastContent(Clean(response));
  }

  /** An empty or whitespace-only reply cleans to the empty text. */
  lemma BlankReplyCleansToEmpty(response: string)
    requires AllSpace(response)
    ensures Clean(response) == []
  {
    NoOccurrenceInBlank(response, Noise);
    ReplaceWithoutMatch(response, Noise, "");
  }

  /** An empty or whitespace-only reply yields the four headers with empty values. */
  lemma BlankReplyGivesEmptySections(response: string)
    requires AllSpace(response)
    ensures forall k :: 0 <= k < 4 ==> FormatResponse(response)[k] == Section(SectionNames[k], "")
  {
    BlankReplyCleansToEmpty(response);
  }
}
