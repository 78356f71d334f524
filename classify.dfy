/** Discovering the amplitude channels of the two fluorophores among the selected feature
    names (lines 155-161 of the simulator): a name is an FAD amplitude when its lower-cased
    form contains "fad" and one of "a1", "a2"; an NAD(P)H amplitude when it contains "nadph"
    or "nad(p)h" and one of "a1", "a2". */
module Classify {
  import opened Text
  import opened Seqs

  predicate HasAmplitudeTag(lower: string)
  {
    Contains(lower, "a1") || Contains(lower, "a2")
  }

  predicate IsFadAmplitude(name: string)
  {
    var lower := Lower(name);
    Contains(lower, "fad") && HasAmplitudeTag(lower)
  }

  predicate IsNadphAmplitude(name: string)
  {
    var lower := Lower(name);
    (Contains(lower, "nadph") || Contains(lower, "nad(p)h")) && HasAmplitudeTag(lower)
  }

  /** `FAD_feats`: the FAD amplitude names among `feats`, in their original order. */
  function FadFeatures(feats: seq<string>): (r: seq<string>)
    ensures IsSubsequence(r, feats)
    ensures forall x :: x in r <==> x in feats && IsFadAmplitude(x)
    ensures forall x :: multiset(r)[x] == if IsFadAmplitude(x) then multiset(feats)[x] else 0
  {
    FilterIsSubsequence(IsFadAmplitude, feats);
    Filter(IsFadAmplitude, feats)
  }

  /** `NADPH_feats`: the NAD(P)H amplitude names among `feats`, in their original order. */
  function NadphFeatures(feats: seq<string>): (r: seq<string>)
    ensures IsSubsequence(r, feats)
    ensures forall x :: x in r <==> x in feats && IsNadphAmplitude(x)
    ensures forall x :: multiset(r)[x] == if IsNadphAmplitude(x) then multiset(feats)[x] else 0
  {
    FilterIsSubsequence(IsNadphAmplitude, feats);
    Filter(IsNadphAmplitude, feats)
  }

  /** The four amplitude columns of a typical table split into the two pairs. */
  lemma ClassifyTypicalColumns(names: seq<string>)
    requires names == ["FAD a1", "FAD a2", "NADPH a1", "NADPH a2"]
    ensures FadFeatures(names) == names[..2]
    ensures NadphFeatures(names) == names[2..]
  {
    assert names[0] == "FAD a1" && names[1] == "FAD a2";
    assert names[2] == "NADPH a1" && names[3] == "NADPH a2";
    FadName(names[0], "a1");
    FadName(names[1], "a2");
    NadphName(names[2], "a1");
    NadphName(names[3], "a2");
    var fad, nadph := IsFadAmplitude, IsNadphAmplitude;
    assert fad(names[0]) && fad(names[1]) && !fad(names[2]) && !fad(names[3]);
    assert !nadph(names[0]) && !nadph(names[1]) && nadph(names[2]) && nadph(names[3]);
    KeepFirstTwo(fad, names);
    KeepLastTwo(nadph, names);
  }

  /** Filtering four names of which exactly the first two pass. */
  lemma KeepFirstTwo(p: string -> bool, s: seq<string>)
    requires |s| == 4 && p(s[0]) && p(s[1]) && !p(s[2]) && !p(s[3])
    ensures Filter(p, s) == s[..2]
  {
    assert s[1..][1..] == s[2..];
    assert s[2..][1..] == s[3..];
    assert s[3..][1..] == [];
  }

  /** Filtering four names of which exactly the last two pass. */
  lemma KeepLastTwo(p: string -> bool, s: seq<string>)
    requires |s| == 4 && !p(s[0]) && !p(s[1]) && p(s[2]) && p(s[3])
    ensures Filter(p, s) == s[2..]
  {
    assert s[1..][1..] == s[2..];
    assert s[2..][1..] == s[3..];
    assert s[3..][1..] == [];
    assert Filter(p, s[3..]) == [s[3]];
    assert Filter(p, s[2..]) == [s[2], s[3]];
  }

  lemma FadName(name: string, tag: string)
    requires tag == "a1" || tag == "a2"
    requires name == "FAD " + tag
    ensures IsFadAmplitude(name) && !IsNadphAmplitude(name)
  {
    var lower := "fad " + tag;
    assert Lower(name) == lower;
    ContainsIff(lower, tag);
    assert OccursAt(lower, tag, 4);
    MissingFirstChar(lower, "nadph");
    MissingFirstChar(lower, "nad(p)h");
  }

  lemma NadphName(name: string, tag: string)
    requires tag == "a1" || tag == "a2"
    requires name == "NADPH " + tag
    ensures IsNadphAmplitude(name) && !IsFadAmplitude(name)
  {
    var lower := "nadph " + tag;
    assert Lower(name) == lower;
    ContainsIff(lower, tag);
    assert OccursAt(lower, tag, 6);
    MissingFirstChar(lower, "fad");
  }

  /** A string that lacks the first character of `t` does not contain `t`. */
  lemma {:induction false} MissingFirstChar(s: string, t: string)
    requires |t| > 0
    requires forall i :: 0 <= i < |s| ==> s[i] != t[0]
    ensures !Contains(s, t)
  {
    if |t| <= |s| {
      assert s[..|t|][0] == s[0];
      MissingFirstChar(s[1..], t);
    }
  }
}
