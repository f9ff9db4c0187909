/**
  The prompt builder: the fixed instruction template with the user's symptoms and
  optional disease substituted at its two placeholders. Substitution is a single
  pass, so text inside the inputs is never itself treated as a placeholder.
 */
module Prompt {
  import opened PyStr

  datatype Option<T> = None | Some(value: T)

  /** The pieces joined in order. */
  function Concat(pieces: seq<string>): string {
    if pieces == [] then [] else pieces[0] + Concat(pieces[1..])
  }

  // The template is written as pieces of at most thirty characters: the verifier reads
  // the characters of a literal one by one, and only short literals stay within its reach.

  /** The role the model is asked to take. */
  const RolePieces: seq<string> := [
      "\n    You are an experienced",
      " Ayurvedic doctor with deep",
      " knowledge of traditional",
      " Indian medicine."
    ]
  const Role: string := Concat(RolePieces)

  /** The request to answer from the inputs. */
  const AskPieces: seq<string> := [
      " Based on the following",
      " symptoms and disease (if",
      " provided), provide:\n"
    ]
  const Ask: string := Concat(AskPieces)

  /** The four things the reply must cover. */
  const TasksPieces: seq<string> := [
      "    1. Possible diseases or",
      " conditions.\n    2. Ayurvedic",
      " medicines or remedies.\n    3.",
      " Lifestyle and dietary",
      " recommendations.\n    4.",
      " Things to avoid.\n\n"
    ]
  const Tasks: string := Concat(TasksPieces)

  /** The first half of the response format the reply is asked to follow. */
  const FormatHeadPieces: seq<string> := [
      "\n\n    Response Format:\n    -",
      " Possible Diseases: <list of",
      " diseases>\n    - Ayurvedic",
      " Medicines: <list of",
      " medicines>\n"
    ]
  const FormatHead: string := Concat(FormatHeadPieces)

  /** The second half of the response format. */
  const FormatTailPieces: seq<string> := [
      "    - Lifestyle",
      " Recommendations: <list of",
      " recommendations>\n    - Things",
      " to Avoid: <list of things to",
      " avoid>\n\n"
    ]
  const FormatTail: string := Concat(FormatTailPieces)

  /** The worked example: its input and its first section. */
  const ExampleDiseasesPieces: seq<string> := [
      "    Example:\n    Symptoms:",
      " fever, cough, and body ache\n",
      "    Disease: Common cold\n    -",
      " Possible Diseases: Common",
      " cold, flu, or viral fever.\n"
    ]
  const ExampleDiseases: string := Concat(ExampleDiseasesPieces)

  /** The worked example's medicines. */
  const ExampleMedicinesPieces: seq<string> := [
      "    - Ayurvedic Medicines:\n",
      "      1. Tulsi (Holy Basil)",
      " tea to reduce fever and",
      " cough.\n      2. Ginger and",
      " honey mixture for sore",
      " throat.\n      3. Turmeric",
      " milk to boost immunity.\n"
    ]
  const ExampleMedicines: string := Concat(ExampleMedicinesPieces)

  /** The worked example's lifestyle recommendations. */
  const ExampleLifestylePieces: seq<string> := [
      "    - Lifestyle",
      " Recommendations:\n      1.",
      " Rest and stay hydrated.\n",
      "      2. Avoid cold and oily",
      " foods.\n      3. Practice",
      " steam inhalation with",
      " eucalyptus oil.\n"
    ]
  const ExampleLifestyle: string := Concat(ExampleLifestylePieces)

  /** The worked example's things to avoid. */
  const ExampleAvoidPieces: seq<string> := [
      "    - Things to Avoid:\n",
      "      1. Cold drinks and ice",
      " cream.\n      2. Oily and",
      " fried foods.\n      3.",
      " Exposure to cold wind.\n    "
    ]
  const ExampleAvoid: string := Concat(ExampleAvoidPieces)

  /** Template text before the `{symptoms}` placeholder. */
  const Prefix: string := Role + Ask + Tasks + "    Symptoms: "

  /** Template text between the `{symptoms}` and `{disease}` placeholders. */
  const Mid: string := "\n    Disease (optional): "

  /** Template text after the `{disease}` placeholder: the response format and the worked example. */
  const Suffix: string :=
    FormatHead + FormatTail + ExampleDiseases + ExampleMedicines + ExampleLifestyle + ExampleAvoid

  /** A prompt template with one `{symptoms}` and one `{disease}` placeholder, as the
      literal text before, between and after them. */
  datatype PromptTemplate = PromptTemplate(prefix: string, mid: string, suffix: string)

  /** The application's template. */
  const Ayurvedic: PromptTemplate := PromptTemplate(Prefix, Mid, Suffix)

  /** The template as written, placeholders included. */
  function Text(t: PromptTemplate): string {
    t.prefix + "{symptoms}" + t.mid + "{disease}" + t.suffix
  }

  /** The prompt `t` gives for `symptoms` and `disease`: each input sits verbatim at
      its placeholder's position and every other character is template text. */
  function BuildPrompt(t: PromptTemplate, symptoms: string, disease: string): (p: string)
    ensures |p| == |Text(t)| - |"{symptoms}"| - |"{disease}"| + |symptoms| + |disease|
    ensures p[..|t.prefix|] == t.prefix
    ensures p[|t.prefix|..|t.prefix| + |symptoms|] == symptoms
    ensures p[|t.prefix| + |symptoms|..|t.prefix| + |symptoms| + |t.mid|] == t.mid
    ensures p[|t.prefix| + |symptoms| + |t.mid|..|p| - |t.suffix|] == disease
    ensures p[|p| - |t.suffix|..] == t.suffix
  {
    t.prefix + symptoms + t.mid + disease + t.suffix
  }

  /** Reads a prompt back as the inputs it was built from, given the length of the
      symptoms text; `None` when `p` is not a prompt of `t` with symptoms of that length. */
  function SplitPrompt(t: PromptTemplate, p: string, n: nat): (r: Option<(string, string)>)
    ensures r.Some? ==> |r.value.0| == n
  {
    var s := |t.prefix| + n;
    var d := s + |t.mid|;
    if d + |t.suffix| <= |p| && p[..|t.prefix|] == t.prefix && p[s..d] == t.mid
      && p[|p| - |t.suffix|..] == t.suffix
    then
      Some((p[|t.prefix|..s], p[d..|p| - |t.suffix|]))
    else
      None
  }

  /** No character of `s` is a brace, so `format` copies it verbatim: a `{` would open
      a field and a lone `}` is an error. */
  predicate Plain(s: string) {
    forall i :: 0 <= i < |s| ==> s[i] != '{' && s[i] != '}'
  }

  /** Text joined from brace-free pieces is brace-free. */
  lemma {:induction false} ConcatPlain(pieces: seq<string>)
    requires forall k :: 0 <= k < |pieces| ==> Plain(pieces[k])
    ensures Plain(Concat(pieces))
  {
    if pieces != [] {
      ConcatPlain(pieces[1..]);
      var s := Concat(pieces);
      forall i | 0 <= i < |s| ensures s[i] != '{' && s[i] != '}' {
        if i >= |pieces[0]| {
          assert s[i] == Concat(pieces[1..])[i - |pieces[0]|];
        }
      }
    }
  }

  /** Brace-free texts join into a brace-free text. */
  lemma PlainAppend(a: string, b: string)
    requires Plain(a) && Plain(b)
    ensures Plain(a + b)
  {
    forall i | 0 <= i < |a + b| ensures (a + b)[i] != '{' && (a + b)[i] != '}' {
      if i >= |a| {
        assert (a + b)[i] == b[i - |a|];
      }
    }
  }

  /** When the literal text is free of braces, the template's braces are exactly those
      of its two placeholders, so `format` sees the two fields and nothing else. */
  lemma OnlyPlaceholderBraces(t: PromptTemplate)
    requires Plain(t.prefix) && Plain(t.mid) && Plain(t.suffix)
    ensures var text := Text(t);
      forall k :: 0 <= k < |text| ==>
        (text[k] == '{' <==> k == |t.prefix| || k == |t.prefix| + 10 + |t.mid|)
    ensures var text := Text(t);
      forall k :: 0 <= k < |text| ==>
        (text[k] == '}' <==> k == |t.prefix| + 9 || k == |t.prefix| + 18 + |t.mid|)
  {
    var text := Text(t);
    var s := |t.prefix| + 10;
    var d := s + |t.mid|;
    var e := d + 9;
    forall k | 0 <= k < |text|
      ensures text[k] == '{' <==> k == |t.prefix| || k == d
      ensures text[k] == '}' <==> k == s - 1 || k == e - 1
    {
      if k < |t.prefix| {
        assert text[k] == t.prefix[k];
      } else if k < s {
        assert text[k] == "{symptoms}"[k - |t.prefix|];
      } else if k < d {
        assert text[k] == t.mid[k - s];
      } else if k < e {
        assert text[k] == "{disease}"[k - d];
      } else {
        assert text[k] == t.suffix[k - e];
      }
    }
  }

  // One lemma per block keeps each character-by-character check small; the verifier
  // checks piece by piece, then joins.
  lemma RoleIsPlain() ensures Plain(Role) {
    assert Plain(RolePieces[0]);
    assert Plain(RolePieces[1]);
    assert Plain(RolePieces[2]);
    assert Plain(RolePieces[3]);
    ConcatPlain(RolePieces);
  }

  lemma AskIsPlain() ensures Plain(Ask) {
    assert Plain(AskPieces[0]);
    assert Plain(AskPieces[1]);
    assert Plain(AskPieces[2]);
    ConcatPlain(AskPieces);
  }

  lemma TasksIsPlain() ensures Plain(Tasks) {
    assert Plain(TasksPieces[0]);
    assert Plain(TasksPieces[1]);
    assert Plain(TasksPieces[2]);
    assert Plain(TasksPieces[3]);
    assert Plain(TasksPieces[4]);
    assert Plain(TasksPieces[5]);
    ConcatPlain(TasksPieces);
  }

  lemma FormatHeadIsPlain() ensures Plain(FormatHead) {
    assert Plain(FormatHeadPieces[0]);
    assert Plain(FormatHeadPieces[1]);
    assert Plain(FormatHeadPieces[2]);
    assert Plain(FormatHeadPieces[3]);
    assert Plain(FormatHeadPieces[4]);
    ConcatPlain(FormatHeadPieces);
  }

  lemma FormatTailIsPlain() ensures Plain(FormatTail) {
    assert Plain(FormatTailPieces[0]);
    assert Plain(FormatTailPieces[1]);
    assert Plain(FormatTailPieces[2]);
    assert Plain(FormatTailPieces[3]);
    assert Plain(FormatTailPieces[4]);
    ConcatPlain(FormatTailPieces);
  }

  lemma ExampleDiseasesIsPlain() ensures Plain(ExampleDiseases) {
    assert Plain(ExampleDiseasesPieces[0]);
    assert Plain(ExampleDiseasesPieces[1]);
    assert Plain(ExampleDiseasesPieces[2]);
    assert Plain(ExampleDiseasesPieces[3]);
    assert Plain(ExampleDiseasesPieces[4]);
    ConcatPlain(ExampleDiseasesPieces);
  }

  lemma ExampleMedicinesIsPlain() ensures Plain(ExampleMedicines) {
    assert Plain(ExampleMedicinesPieces[0]);
    assert Plain(ExampleMedicinesPieces[1]);
    assert Plain(ExampleMedicinesPieces[2]);
    assert Plain(ExampleMedicinesPieces[3]);
    assert Plain(ExampleMedicinesPieces[4]);
    assert Plain(ExampleMedicinesPieces[5]);
    assert Plain(ExampleMedicinesPieces[6]);
    ConcatPlain(ExampleMedicinesPieces);
  }

  lemma ExampleLifestyleIsPlain() ensures Plain(ExampleLifestyle) {
    assert Plain(ExampleLifestylePieces[0]);
    assert Plain(ExampleLifestylePieces[1]);
    assert Plain(ExampleLifestylePieces[2]);
    assert Plain(ExampleLifestylePieces[3]);
    assert Plain(ExampleLifestylePieces[4]);
    assert Plain(ExampleLifestylePieces[5]);
    assert Plain(ExampleLifestylePieces[6]);
    ConcatPlain(ExampleLifestylePieces);
  }

  lemma ExampleAvoidIsPlain() ensures Plain(ExampleAvoid) {
    assert Plain(ExampleAvoidPieces[0]);
    assert Plain(ExampleAvoidPieces[1]);
    assert Plain(ExampleAvoidPieces[2]);
    assert Plain(ExampleAvoidPieces[3]);
    assert Plain(ExampleAvoidPieces[4]);
    ConcatPlain(ExampleAvoidPieces);
  }

  lemma PrefixIsPlain() ensures Plain(Prefix) {
    RoleIsPlain();
    AskIsPlain();
    TasksIsPlain();
    PlainAppend(Role, Ask);
    PlainAppend(Role + Ask, Tasks);
    PlainAppend(Role + Ask + Tasks, "    Symptoms: ");
  }

  lemma SuffixIsPlain() ensures Plain(Suffix) {
    FormatHeadIsPlain();
    FormatTailIsPlain();
    ExampleDiseasesIsPlain();
    ExampleMedicinesIsPlain();
    ExampleLifestyleIsPlain();
    ExampleAvoidIsPlain();
    PlainAppend(FormatHead, FormatTail);
    PlainAppend(FormatHead + FormatTail, ExampleDiseases);
    PlainAppend(FormatHead + FormatTail + ExampleDiseases, ExampleMedicines);
    PlainAppend(FormatHead + FormatTail + ExampleDiseases + ExampleMedicines, ExampleLifestyle);
    PlainAppend(FormatHead + FormatTail + ExampleDiseases + ExampleMedicines + ExampleLifestyle, ExampleAvoid);
  }

  lemma MidIsPlain() ensures Plain(Mid) {}

  /** The application's template has no brace outside its two placeholders, so by
      `OnlyPlaceholderBraces` its only fields are `{symptoms}` and `{disease}`. */
  lemma AyurvedicIsPlain()
    ensures Plain(Ayurvedic.prefix) && Plain(Ayurvedic.mid) && Plain(Ayurvedic.suffix)
  {
    PrefixIsPlain();
    MidIsPlain();
    SuffixIsPlain();
  }

  /** Splitting a built prompt at its symptoms length recovers both inputs. */
  lemma SplitBuild(t: PromptTemplate, symptoms: string, disease: string)
    ensures SplitPrompt(t, BuildPrompt(t, symptoms, disease), |symptoms|) == Some((symptoms, disease))
  {
  }

  /** Whatever a successful split returns builds the prompt it was split from. */
  lemma BuildSplit(t: PromptTemplate, p: string, n: nat)
    requires SplitPrompt(t, p, n).Some?
    ensures var (s, d) := SplitPrompt(t, p, n).value; BuildPrompt(t, s, d) == p
  {
    var i := |t.prefix| + n;
    var j := i + |t.mid|;
    var k := |p| - |t.suffix|;
    assert p[..i] == p[..|t.prefix|] + p[|t.prefix|..i];
    assert p[..j] == p[..i] + p[i..j];
    assert p[..k] == p[..j] + p[j..k];
    assert p == p[..k] + p[k..];
  }

  /** The prompt holds both inputs verbatim. */
  lemma PromptContainsInputs(t: PromptTemplate, symptoms: string, disease: string)
    ensures Occurs(BuildPrompt(t, symptoms, disease), symptoms)
    ensures Occurs(BuildPrompt(t, symptoms, disease), disease)
  {
    var p := BuildPrompt(t, symptoms, disease);
    assert IsAt(p, symptoms, |t.prefix|);
    assert IsAt(p, disease, |t.prefix| + |symptoms| + |t.mid|);
  }

  /** Two requests whose symptoms have the same length produce the same prompt only
      when they agree on both inputs. */
  lemma PromptDeterminesInputs(t: PromptTemplate, s1: string, d1: string, s2: string, d2: string)
    requires |s1| == |s2|
    ensures BuildPrompt(t, s1, d1) == BuildPrompt(t, s2, d2) <==> s1 == s2 && d1 == d2
  {
    if BuildPrompt(t, s1, d1) == BuildPrompt(t, s2, d2) {
      SplitBuild(t, s1, d1);
      SplitBuild(t, s2, d2);
    }
  }

  /** Without knowing where the symptoms end, a prompt is ambiguous: symptoms that
      themselves contain the text between the placeholders read the same as a shorter
      symptoms text with a longer disease. */
  lemma PromptIsAmbiguous(t: PromptTemplate)
    ensures "a" + t.mid + "b" != "a"
    ensures BuildPrompt(t, "a" + t.mid + "b", "c") == BuildPrompt(t, "a", "b" + t.mid + "c")
  {
    assert |"a" + t.mid + "b"| > |"a"|;
  }
}
