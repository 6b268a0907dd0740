/** The per-trial classifiers of the recognition phase: material type from the conditions
    file name, signal-detection outcome from condition and correctness, material attribute
    from the correct-answer key and material type, and the response time. */
module Classifier {
  import opened Wrappers

  datatype MaterialType = Object | Scene | Pair

  datatype Outcome = Hit | Miss | CR | FA

  datatype Attribute = Living | Nonliving | Indoor | Outdoor | Likely | Unlikely

  /** The text of a cell as `str` renders it; a missing cell renders as "nan". */
  function CellText(v: Option<string>): string
  {
    match v
    case None => "nan"
    case Some(s) => s
  }

  /** Lower-casing of one character (ASCII letters only). */
  function LowerChar(c: char): char
  {
    if 'A' <= c <= 'Z' then (c as int + 32) as char else c
  }

  function Lower(s: string): string
  {
    seq(|s|, i requires 0 <= i < |s| => LowerChar(s[i]))
  }

  /** `p` occurs in `s` starting at index i. */
  predicate OccursAt(s: string, p: string, i: int)
  {
    0 <= i && i + |p| <= |s| && s[i..i + |p|] == p
  }

  /** The substring relation that Python's `p in s` decides. */
  ghost predicate Occurs(s: string, p: string)
  {
    exists i :: OccursAt(s, p, i)
  }

  /** The occurrences of `p` in `s[1..]` are those in `s` after index 0, shifted by one. */
  lemma OccursShift(s: string, p: string)
    requires |s| > 0
    ensures Occurs(s, p) <==> OccursAt(s, p, 0) || Occurs(s[1..], p)
  {
    if Occurs(s, p) && !OccursAt(s, p, 0) {
      var i :| OccursAt(s, p, i);
      assert s[1..][i - 1..i - 1 + |p|] == s[i..i + |p|];
      assert OccursAt(s[1..], p, i - 1);
    }
    if Occurs(s[1..], p) {
      var i :| OccursAt(s[1..], p, i);
      assert s[1..][i..i + |p|] == s[i + 1..i + 1 + |p|];
      assert OccursAt(s, p, i + 1);
    }
  }

  /** A left-to-right substring search. */
  function Contains(s: string, p: string): (b: bool)
    ensures b <==> Occurs(s, p)
    decreases |s|
  {
    if OccursAt(s, p, 0) then true
    else if |s| == 0 then false
    else
      OccursShift(s, p);
      Contains(s[1..], p)
  }

  /** `extract_material_type`: a case-insensitive search for "object", then "scene", then
      "pair" in the conditions file name; the first one found decides, and no match gives None. */
  function ExtractMaterialType(condsFile: Option<string>): (r: Option<MaterialType>)
    ensures var low := Lower(CellText(condsFile));
      && (r == Some(Object) <==> Occurs(low, "object"))
      && (r == Some(Scene) <==> !Occurs(low, "object") && Occurs(low, "scene"))
      && (r == Some(Pair) <==> !Occurs(low, "object") && !Occurs(low, "scene") && Occurs(low, "pair"))
      && (r == None <==> !Occurs(low, "object") && !Occurs(low, "scene") && !Occurs(low, "pair"))
  {
    var low := Lower(CellText(condsFile));
    if Contains(low, "object") then Some(Object)
    else if Contains(low, "scene") then Some(Scene)
    else if Contains(low, "pair") then Some(Pair)
    else None
  }

  /** Names that differ only in the case of their letters get the same material type. */
  lemma ExtractIgnoresCase(s: string, t: string)
    requires |s| == |t|
    requires forall i :: 0 <= i < |s| ==> LowerChar(s[i]) == LowerChar(t[i])
    ensures ExtractMaterialType(Some(s)) == ExtractMaterialType(Some(t))
  {
    assert Lower(s) == Lower(t);
  }

  /** A missing conditions file name has no material type. */
  lemma ExtractMissing()
    ensures ExtractMaterialType(None) == None
  {
  }

  /** A name mentioning both a scene and an object, in any case, is classified as an object. */
  lemma ExtractObjectOverScene(s: string)
    requires Occurs(Lower(s), "scene") && Occurs(Lower(s), "object")
    ensures ExtractMaterialType(Some(s)) == Some(Object)
  {
  }

  /** A worked case of the priority: "Scene_OBJECT_conds.xlsx" is an object file. */
  lemma ExtractObjectOverSceneExample()
    ensures ExtractMaterialType(Some("Scene_OBJECT_conds.xlsx")) == Some(Object)
  {
    var s := "Scene_OBJECT_conds.xlsx";
    var low := Lower(s);
    assert s[6..12] == "OBJECT";
    assert low[6..12] == Lower(s[6..12]);
    assert Lower("OBJECT") == "object";
    assert OccursAt(low, "object", 6);
  }

  /** Hit and Miss are the outcomes of studied targets. */
  predicate IsTarget(o: Outcome)
  {
    o == Hit || o == Miss
  }

  /** Hit and CR are the outcomes of a correct response. */
  predicate IsCorrect(o: Outcome)
  {
    o == Hit || o == CR
  }

  /** The condition labels the classifier understands. */
  predicate KnownCondition(condition: Option<string>)
  {
    condition == Some("Old") || condition == Some("New") || condition == Some("Lure")
  }

  /** `signal_detection`: Old trials give Hit or Miss, New and Lure trials give CR or FA,
      with the correct member exactly when the correctness flag equals 1 (a missing flag is
      not 1); any other condition, missing included, gives None. */
  function SignalDetection(condition: Option<string>, corr: Option<int>): (r: Option<Outcome>)
    ensures r == None <==> !KnownCondition(condition)
    ensures r == Some(Hit) <==> condition == Some("Old") && corr == Some(1)
    ensures r == Some(Miss) <==> condition == Some("Old") && corr != Some(1)
    ensures r == Some(CR) <==> (condition == Some("New") || condition == Some("Lure")) && corr == Some(1)
    ensures r == Some(FA) <==> (condition == Some("New") || condition == Some("Lure")) && corr != Some(1)
  {
    if condition == Some("Old") then
      if corr == Some(1) then Some(Hit) else Some(Miss)
    else if condition == Some("New") || condition == Some("Lure") then
      if corr == Some(1) then Some(CR) else Some(FA)
    else None
  }

  /** An outcome is produced exactly for a known condition, and it is a target outcome
      exactly for Old and a correct outcome exactly when the flag is 1. */
  lemma SignalDetectionInverse(condition: Option<string>, corr: Option<int>, o: Outcome)
    ensures SignalDetection(condition, corr) == Some(o)
      <==> KnownCondition(condition)
           && (IsTarget(o) <==> condition == Some("Old"))
           && (IsCorrect(o) <==> corr == Some(1))
  {
  }

  /** Worked cases: Old with flag 1 is a Hit, Old with flag 0 or no flag a Miss, New with
      flag 1 a CR, Lure with flag 0 an FA, and a missing condition no outcome. */
  lemma SignalDetectionExamples()
    ensures SignalDetection(Some("Old"), Some(1)) == Some(Hit)
    ensures SignalDetection(Some("Old"), Some(0)) == Some(Miss)
    ensures SignalDetection(Some("Old"), None) == Some(Miss)
    ensures SignalDetection(Some("New"), Some(1)) == Some(CR)
    ensures SignalDetection(Some("Lure"), Some(0)) == Some(FA)
    ensures SignalDetection(None, Some(1)) == None
  {
  }

  /** The material each attribute belongs to. */
  function MaterialOf(a: Attribute): MaterialType
  {
    match a
    case Living | Nonliving => Object
    case Indoor | Outdoor => Scene
    case Likely | Unlikely => Pair
  }

  /** The attributes coded by the "num_8" answer key; the others are coded by "num_5". */
  predicate IsHigh(a: Attribute)
  {
    a == Living || a == Indoor || a == Likely
  }

  /** The answer key that codes an attribute. */
  function KeyOf(a: Attribute): string
  {
    if IsHigh(a) then "num_8" else "num_5"
  }

  /** `material_attribute`: the key "num_8" or "num_5" combined with the material type picks
      one of Living/Nonliving, Indoor/Outdoor, Likely/Unlikely; any other key or a missing
      material type gives None. */
  function MaterialAttribute(corrAns: Option<string>, materialType: Option<MaterialType>): (r: Option<Attribute>)
    ensures r.Some? <==> (corrAns == Some("num_8") || corrAns == Some("num_5")) && materialType.Some?
    ensures r.Some? ==> materialType == Some(MaterialOf(r.value))
    ensures r.Some? ==> (IsHigh(r.value) <==> corrAns == Some("num_8"))
  {
    if corrAns == Some("num_8") then
      match materialType
      case Some(Object) => Some(Living)
      case Some(Scene) => Some(Indoor)
      case Some(Pair) => Some(Likely)
      case None => None
    else if corrAns == Some("num_5") then
      match materialType
      case Some(Object) => Some(Nonliving)
      case Some(Scene) => Some(Outdoor)
      case Some(Pair) => Some(Unlikely)
      case None => None
    else None
  }

  /** Every attribute is produced, and only by its own key and material. */
  lemma MaterialAttributeRoundTrip(corrAns: Option<string>, materialType: Option<MaterialType>, a: Attribute)
    ensures MaterialAttribute(corrAns, materialType) == Some(a)
      <==> corrAns == Some(KeyOf(a)) && materialType == Some(MaterialOf(a))
  {
  }

  /** Worked cases: num_8 on an object is Living, num_5 on a scene Outdoor, num_8 on a pair
      Likely, and an unknown key gives no attribute. */
  lemma MaterialAttributeExamples()
    ensures MaterialAttribute(Some("num_8"), Some(Object)) == Some(Living)
    ensures MaterialAttribute(Some("num_5"), Some(Scene)) == Some(Outdoor)
    ensures MaterialAttribute(Some("num_8"), Some(Pair)) == Some(Likely)
    ensures MaterialAttribute(Some("num_7"), Some(Pair)) == None
  {
  }

  /** The response time, end minus start, unclamped; a missing operand makes it missing. */
  function ResponseTime(start: Option<real>, end: Option<real>): (r: Option<real>)
    ensures r.Some? <==> start.Some? && end.Some?
    ensures r.Some? ==> start.value + r.value == end.value
    ensures r.Some? ==> (r.value < 0.0 <==> end.value < start.value)
  {
    if start.Some? && end.Some? then Some(end.value - start.value) else None
  }
}
