/** The last two stages of analyzeSkillsGap: the trending entries the user
    does not hold, and one course suggestion per such entry. */
module Gap {
  import opened Tally

  /** One roadmap item: the missing skill and the advice for it. */
  datatype RoadmapStep = RoadmapStep(skill: Skill, suggestion: string)

  const SuggestionPrefix: string := "Consider taking a course in "
  const SuggestionSuffix: string := "."

  /** The fixed advice text for a skill name. */
  function SuggestionFor(name: string): string
  {
    SuggestionPrefix + name + SuggestionSuffix
  }

  /** userSkills.map(us => us.skill.name) */
  function UserSkillNames(userSkills: seq<Skill>): (r: seq<string>)
    ensures |r| == |userSkills|
    ensures forall i :: 0 <= i < |r| ==> r[i] == userSkills[i].name
  {
    if userSkills == [] then [] else [userSkills[0].name] + UserSkillNames(userSkills[1..])
  }

  /** trendingSkills.filter(ts => !userSkillNames.includes(ts.skill.name)) */
  function SkillsGap(trending: seq<Entry>, owned: seq<string>): (r: seq<Entry>)
    ensures |r| <= |trending|
  {
    if trending == [] then []
    else
      (if trending[0].skill.name in owned then [] else [trending[0]]) + SkillsGap(trending[1..], owned)
  }

  /** gap.map(g => ({skill: g.skill, suggestion: `Consider taking a course in ${g.skill.name}.`})) */
  function Roadmap(gap: seq<Entry>): (r: seq<RoadmapStep>)
    ensures |r| == |gap|
    ensures forall i :: 0 <= i < |r| ==>
              r[i].skill == gap[i].skill && r[i].suggestion == SuggestionFor(gap[i].skill.name)
  {
    if gap == [] then []
    else [RoadmapStep(gap[0].skill, SuggestionFor(gap[0].skill.name))] + Roadmap(gap[1..])
  }

  // ---------------------------------------------------------------------

  /** A name is among the user's names exactly when one of the user's skills carries it. */
  lemma UserSkillNamesMembers(userSkills: seq<Skill>, n: string)
    ensures n in UserSkillNames(userSkills) <==> exists k :: 0 <= k < |userSkills| && userSkills[k].name == n
  {
    var names := UserSkillNames(userSkills);
    if n in names {
      var k :| 0 <= k < |names| && names[k] == n;
      assert userSkills[k].name == n;
    }
  }

  /** The gap holds exactly the trending entries whose name the user lacks. */
  lemma {:induction false} GapMembers(trending: seq<Entry>, owned: seq<string>, e: Entry)
    ensures e in SkillsGap(trending, owned) <==> e in trending && e.skill.name !in owned
  {
    if trending != [] {
      GapMembers(trending[1..], owned, e);
      assert trending == [trending[0]] + trending[1..];
    }
  }

  /** `idx` lists, in increasing order, the positions of `trending` whose
      name the user lacks, and the gap is the trending list read at them. */
  ghost predicate KeptPositions(idx: seq<nat>, trending: seq<Entry>, owned: seq<string>)
  {
    ReadAt(idx, trending, SkillsGap(trending, owned)) && Increasing(idx) && Covers(idx, trending, owned)
  }

  /** `picked` is `s` read at the positions `idx`. */
  ghost predicate ReadAt(idx: seq<nat>, s: seq<Entry>, picked: seq<Entry>)
  {
    |idx| == |picked| && forall k :: 0 <= k < |idx| ==> idx[k] < |s| && picked[k] == s[idx[k]]
  }

  ghost predicate Increasing(idx: seq<nat>)
  {
    forall k, l :: 0 <= k < l < |idx| ==> idx[k] < idx[l]
  }

  /** `idx` holds exactly the positions whose name is not owned. */
  ghost predicate Covers(idx: seq<nat>, s: seq<Entry>, owned: seq<string>)
  {
    forall i :: 0 <= i < |s| ==> (i in idx <==> s[i].skill.name !in owned)
  }

  /** The gap is an order-preserving subsequence of the trending list that
      keeps exactly the positions whose name the user lacks. */
  lemma {:induction false} GapSubsequence(trending: seq<Entry>, owned: seq<string>) returns (idx: seq<nat>)
    ensures KeptPositions(idx, trending, owned)
  {
    if trending == [] {
      idx := [];
    } else {
      var tail := trending[1..];
      var rest := GapSubsequence(tail, owned);
      var keep := trending[0].skill.name !in owned;
      idx := if keep then [0] + Shift(rest) else Shift(rest);
      ShiftReadAt(rest, trending, SkillsGap(tail, owned));
      ShiftIncreasing(rest);
      ShiftCovers(rest, trending, owned);
      assert SkillsGap(trending, owned) ==
             (if keep then [trending[0]] else []) + SkillsGap(tail, owned);
    }
  }

  lemma ShiftReadAt(rest: seq<nat>, s: seq<Entry>, picked: seq<Entry>)
    requires s != [] && ReadAt(rest, s[1..], picked)
    ensures ReadAt(Shift(rest), s, picked)
    ensures ReadAt([0] + Shift(rest), s, [s[0]] + picked)
  {
    var shifted := Shift(rest);
    forall k | 0 <= k < |shifted| ensures shifted[k] < |s| && picked[k] == s[shifted[k]] {
      assert picked[k] == s[1..][rest[k]];
    }
    var idx := [0] + shifted;
    var picked' := [s[0]] + picked;
    forall k | 0 <= k < |idx| ensures idx[k] < |s| && picked'[k] == s[idx[k]] {
      if k > 0 { assert idx[k] == shifted[k - 1] && picked'[k] == picked[k - 1]; }
    }
  }

  lemma ShiftIncreasing(rest: seq<nat>)
    requires Increasing(rest)
    ensures Increasing(Shift(rest)) && Increasing([0] + Shift(rest))
  {
    var idx := [0] + Shift(rest);
    forall k, l | 0 <= k < l < |idx| ensures idx[k] < idx[l] {
      assert idx[l] == Shift(rest)[l - 1];
      if k > 0 { assert idx[k] == Shift(rest)[k - 1]; }
    }
  }

  lemma ShiftCovers(rest: seq<nat>, s: seq<Entry>, owned: seq<string>)
    requires s != [] && Covers(rest, s[1..], owned)
    ensures s[0].skill.name in owned ==> Covers(Shift(rest), s, owned)
    ensures s[0].skill.name !in owned ==> Covers([0] + Shift(rest), s, owned)
  {
    var shifted := Shift(rest);
    forall i | 0 <= i < |s| ensures (i in shifted <==> i > 0 && s[i].skill.name !in owned) {
      if i > 0 { assert s[i] == s[1..][i - 1]; }
    }
  }

  /** Every position moved one place to the right. */
  function Shift(idx: seq<nat>): (r: seq<nat>)
    ensures |r| == |idx|
    ensures forall k :: 0 <= k < |r| ==> r[k] == idx[k] + 1
    ensures forall i :: i in r <==> i > 0 && i - 1 in idx
  {
    if idx == [] then [] else [idx[0] + 1] + Shift(idx[1..])
  }

  /** The gap is empty exactly when the user holds every trending name. */
  lemma GapEmpty(trending: seq<Entry>, owned: seq<string>)
    ensures SkillsGap(trending, owned) == [] <==>
            forall i :: 0 <= i < |trending| ==> trending[i].skill.name in owned
  {
    if SkillsGap(trending, owned) != [] {
      var e := SkillsGap(trending, owned)[0];
      GapMembers(trending, owned, e);
    } else {
      forall i | 0 <= i < |trending| ensures trending[i].skill.name in owned {
        GapMembers(trending, owned, trending[i]);
      }
    }
  }

  /** Different skill names get different advice, so the roadmap names its
      skills unambiguously. */
  lemma SuggestionInjective(a: string, b: string)
    requires SuggestionFor(a) == SuggestionFor(b)
    ensures a == b
  {
    var p := |SuggestionPrefix|;
    assert |a| == |b|;
    assert SuggestionFor(a)[p..p + |a|] == a;
    assert SuggestionFor(b)[p..p + |b|] == b;
  }
}
