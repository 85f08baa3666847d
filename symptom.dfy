/** The keyword triage of HealthBuddy/agents/symptom_agent.py. */
module Symptom {
  import opened Text

  /** Words that make the risk High, checked first. */
  const Urgent: seq<string> := ["severe", "chest pain", "unconscious", "difficulty breathing"]

  /** Words that make the risk Moderate when no urgent word occurs. */
  const Concerning: seq<string> := ["fever", "dizziness", "fatigue", "vomiting"]

  datatype Risk = Low | Moderate | High
  {
    function Name(): string
    {
      match this
      case Low => "Low"
      case Moderate => "Moderate"
      case High => "High"
    }

    function Level(): nat
    {
      match this
      case Low => 0
      case Moderate => 1
      case High => 2
    }
  }

  /** `simple_rule_based_triage`: case-insensitive, urgent words before
      concerning words, Low otherwise. */
  function Triage(symptoms: string): Risk
  {
    var s := Lower(symptoms);
    if MentionsAny(s, Urgent) then High
    else if MentionsAny(s, Concerning) then Moderate
    else Low
  }

  /** Each risk level holds exactly when its keyword condition holds. */
  lemma TriageIff(symptoms: string)
    ensures var s := Lower(symptoms);
            && (Triage(symptoms) == High <==> MentionsAny(s, Urgent))
            && (Triage(symptoms) == Moderate <==> !MentionsAny(s, Urgent) && MentionsAny(s, Concerning))
            && (Triage(symptoms) == Low <==> !MentionsAny(s, Urgent) && !MentionsAny(s, Concerning))
  {
  }

  /** Letter case does not matter. */
  lemma TriageCaseInsensitive(a: string, b: string)
    requires Lower(a) == Lower(b)
    ensures Triage(a) == Triage(b)
  {
  }

  lemma TriageOfLower(symptoms: string)
    ensures Triage(Lower(symptoms)) == Triage(symptoms)
  {
    LowerIdempotent(symptoms);
  }

  lemma MentionsAnyAppend(s: string, t: string, words: seq<string>)
    requires MentionsAny(s, words)
    ensures MentionsAny(s + t, words)
  {
    var k :| 0 <= k < |words| && Contains(s, words[k]);
    ContainsAppend(s, t, words[k]);
  }

  /** Describing more symptoms never lowers the risk. */
  lemma TriageMonotone(symptoms: string, more: string)
    ensures Triage(symptoms).Level() <= Triage(symptoms + more).Level()
  {
    LowerAppend(symptoms, more);
    var s := Lower(symptoms);
    if MentionsAny(s, Urgent) {
      MentionsAnyAppend(s, Lower(more), Urgent);
    } else if MentionsAny(s, Concerning) {
      MentionsAnyAppend(s, Lower(more), Concerning);
    }
  }

  /** An urgent word wins over a concerning one: any text that mentions
      both "severe" and "fever", such as "Severe fever", is High. */
  lemma SevereFeverIsHigh(symptoms: string)
    requires Contains(Lower(symptoms), "severe") && Contains(Lower(symptoms), "fever")
    ensures Triage(symptoms) == High
  {
    assert Urgent[0] == "severe";
  }

  /** A concerning word alone gives Moderate. */
  lemma FeverIsModerate()
    ensures Triage("Fever") == Moderate
  {
    var s := Lower("Fever");
    assert s == "fever";
    forall k | 0 <= k < |Urgent| ensures !Contains(s, Urgent[k]) {
      AbsentFirstChar(s, Urgent[k]);
    }
    assert OccursAt(s, Concerning[0], 0);
    ContainsIff(s, Concerning[0]);
  }

  datatype TriageReport = TriageReport(risk: string, english: string, hindi: string)

  /** `run`: the risk name with its English and Hindi sentences. */
  function Run(symptoms: string): (r: TriageReport)
    ensures r.risk in {"High", "Moderate", "Low"}
    ensures r.risk == Triage(symptoms).Name()
    ensures r.english == "Your symptoms are " + r.risk
    ensures r.hindi == "आपके लक्षण " + r.risk + " हैं"
  {
    var risk := Triage(symptoms).Name();
    TriageReport(risk, "Your symptoms are " + risk, "आपके लक्षण " + risk + " हैं")
  }
}
