/** The emergency guardrail (a case-insensitive keyword scan) and the fixed texts
    the service shows beside every answer. */
module Guardrails {
  import opened Text

  const EmergencyKeywords: seq<string> := [
    "severe chest pain", "trouble breathing", "blue lips", "unconscious",
    "stroke", "heart attack", "suicidal", "poisoning", "overdose", "heavy bleeding"
  ]

  const Disclaimer: string :=
    "This assistant provides general health information, not medical advice. "
    + "If this is an emergency or you are in immediate danger, call your local emergency number (e.g., 911 in the U.S.) now."

  /** The text `instruction_prompt()` returns. */
  const InstructionPrompt: string :=
    "You are a careful healthcare information assistant for laypeople.\n"
    + "Rules:\n"
    + "1) Answer concisely in plain language and ALWAYS cite sources with markdown links.\n"
    + "2) Do NOT diagnose or prescribe. Encourage consulting a clinician when appropriate.\n"
    + "3) Prefer authoritative sources (MedlinePlus, CDC) from provided context.\n"
    + "4) If insufficient context, say so and suggest clearer query.\n"

  /** `any(k in t for k in ks)` */
  function AnyKeywordIn(ks: seq<string>, t: string): (r: bool)
    ensures r <==> exists i :: 0 <= i < |ks| && IsSubstring(ks[i], t)
  {
    if ks == [] then false else IsSubstring(ks[0], t) || AnyKeywordIn(ks[1..], t)
  }

  /** `emergency_flag(text)`: some keyword is a plain substring of the lower-cased text. */
  function EmergencyFlag(text: string): (r: bool)
    ensures r <==> exists i :: 0 <= i < |EmergencyKeywords| && IsSubstring(EmergencyKeywords[i], Lower(text))
  {
    AnyKeywordIn(EmergencyKeywords, Lower(text))
  }

  /** The flag ignores letter case. */
  lemma EmergencyFlagIgnoresCase(text: string)
    ensures EmergencyFlag(text) == EmergencyFlag(Lower(text))
  {
    LowerIdempotent(text);
  }

  /** A flagged text stays flagged inside any longer text. */
  lemma EmergencyFlagMonotone(t: string, u: string)
    requires IsSubstring(t, u) && EmergencyFlag(t)
    ensures EmergencyFlag(u)
  {
    var i :| 0 <= i < |EmergencyKeywords| && IsSubstring(EmergencyKeywords[i], Lower(t));
    LowerSubstring(t, u);
    SubstringTransitive(EmergencyKeywords[i], Lower(t), Lower(u));
  }

  /** The shortest keyword, "stroke", has six characters, so nothing shorter
      (in particular the empty text) is flagged. */
  lemma ShortTextNotFlagged(text: string)
    requires |text| < 6
    ensures !EmergencyFlag(text)
  {
    forall i | 0 <= i < |EmergencyKeywords|
      ensures !IsSubstring(EmergencyKeywords[i], Lower(text))
    {
      assert |EmergencyKeywords[i]| >= 6;
      SubstringOfLonger(EmergencyKeywords[i], Lower(text));
    }
  }

  /** Matching has no word boundaries: "stroke" inside "Heatstroke" raises the flag. */
  lemma HeatstrokeFlagged()
    ensures EmergencyFlag("Heatstroke")
  {
    assert Lower("Heatstroke") == "heatstroke";
    assert OccursAt("stroke", "heatstroke", 4);
    assert EmergencyKeywords[4] == "stroke";
  }
}
