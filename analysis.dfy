/** analyzeSkillsGap end to end: the tally of the postings' required skills,
    the top ten of it by count, the trending entries the user lacks, and a
    suggestion per missing skill. The store reads of the function become its
    inputs: the user's skills and the job postings. */
module Analysis {
  import opened Tally
  import opened Rank
  import opened Gap

  /** The object analyzeSkillsGap returns. */
  datatype Report = Report(trendingSkills: seq<Entry>, userSkills: seq<Skill>,
                           gap: seq<Entry>, roadmap: seq<RoadmapStep>)

  method AnalyzeSkillsGap(userSkills: seq<Skill>, jobs: seq<Job>) returns (report: Report)
    ensures report.userSkills == userSkills
    ensures report.trendingSkills == Trending(TallyValues(Flatten(jobs)))
    ensures report.gap == SkillsGap(report.trendingSkills, UserSkillNames(userSkills))
    ensures report.roadmap == Roadmap(report.gap)
    ensures |report.trendingSkills| ==
            if |DistinctNames(Flatten(jobs))| < TrendingLimit then |DistinctNames(Flatten(jobs))| else TrendingLimit
    ensures Descending(report.trendingSkills)
    ensures forall e :: e in report.gap <==>
              e in report.trendingSkills && forall k :: 0 <= k < |userSkills| ==> userSkills[k].name != e.skill.name
    ensures |report.roadmap| == |report.gap|
  {
    var userSkillNames := UserSkillNames(userSkills);
    var table := CountRequiredSkills(jobs);
    var trending := Trending(ObjectValues(table));
    var gap := SkillsGap(trending, userSkillNames);
    report := Report(trending, userSkills, gap, Roadmap(gap));

    var flat := Flatten(jobs);
    TrendingShape(TallyValues(flat));
    EntriesForLength(flat, DistinctNames(flat));
    forall e ensures e in gap <==>
        e in trending && forall k :: 0 <= k < |userSkills| ==> userSkills[k].name != e.skill.name
    {
      GapMembers(trending, userSkillNames, e);
      UserSkillNamesMembers(userSkills, e.skill.name);
    }
  }

  // ---------------------------------------------------------------------
  // Properties that span the stages

  /** Each trending entry is a tally entry: its count is the number of
      requirements naming its skill (at least one), and its skill object is
      the first one required under that name. */
  lemma TrendingEntry(flat: seq<Skill>, i: nat)
    requires i < |Trending(TallyValues(flat))|
    ensures var e := Trending(TallyValues(flat))[i];
            HasName(flat, e.skill.name) &&
            e.count == CountName(flat, e.skill.name) >= 1 &&
            e.skill == flat[FirstIndex(flat, e.skill.name)]
  {
    var values := TallyValues(flat);
    var e := Trending(values)[i];
    TrendingShape(values);
    assert e in multiset(Trending(values));
    assert e in values;
    var k :| 0 <= k < |values| && values[k] == e;
    TallyValuesAt(flat, k);
  }

  /** No skill name is trending twice. */
  lemma TrendingNamesDistinct(flat: seq<Skill>)
    ensures NamesDistinct(Trending(TallyValues(flat)))
  {
    var values := TallyValues(flat);
    forall a, b | 0 <= a < b < |values| ensures values[a].skill.name != values[b].skill.name {
      TallyNamesDistinct(flat, a, b);
    }
    SortKeepsNamesDistinct(values);
    var sorted := SortByCount(values);
    if |sorted| > TrendingLimit {
      var t := sorted[..TrendingLimit];
      assert forall a :: 0 <= a < |t| ==> t[a] == sorted[a];
    }
  }

  /** Pairwise distinct skill names. */
  ghost predicate NamesDistinct(s: seq<Entry>)
  {
    forall a, b :: 0 <= a < b < |s| ==> s[a].skill.name != s[b].skill.name
  }

  lemma {:induction false} InsertKeepsNamesDistinct(x: Entry, t: seq<Entry>)
    requires NamesDistinct(t)
    requires forall e :: e in t ==> e.skill.name != x.skill.name
    ensures NamesDistinct(Insert(x, t))
  {
    var r := Insert(x, t);
    if t == [] || t[0].count <= x.count {
      forall a, b | 0 <= a < b < |r| ensures r[a].skill.name != r[b].skill.name {
        assert r[b] == t[b - 1];
        if a > 0 { assert r[a] == t[a - 1]; }
      }
    } else {
      var tail := t[1..];
      assert NamesDistinct(tail) by {
        forall a, b | 0 <= a < b < |tail| ensures tail[a].skill.name != tail[b].skill.name {
          assert tail[a] == t[a + 1] && tail[b] == t[b + 1];
        }
      }
      InsertKeepsNamesDistinct(x, tail);
      var rest := Insert(x, tail);
      forall b | 0 <= b < |rest| ensures rest[b].skill.name != t[0].skill.name {
        InsertMembers(x, tail, b);
        if rest[b] != x {
          var k :| 0 <= k < |tail| && tail[k] == rest[b];
          assert t[k + 1] == rest[b];
        }
      }
      forall a, b | 0 <= a < b < |r| ensures r[a].skill.name != r[b].skill.name {
        assert r[b] == rest[b - 1];
        if a > 0 { assert r[a] == rest[a - 1]; }
      }
    }
  }

  lemma {:induction false} SortKeepsNamesDistinct(s: seq<Entry>)
    requires NamesDistinct(s)
    ensures NamesDistinct(SortByCount(s))
  {
    if s != [] {
      var tail := s[1..];
      assert NamesDistinct(tail) by {
        forall a, b | 0 <= a < b < |tail| ensures tail[a].skill.name != tail[b].skill.name {
          assert tail[a] == s[a + 1] && tail[b] == s[b + 1];
        }
      }
      SortKeepsNamesDistinct(tail);
      forall e | e in SortByCount(tail) ensures e.skill.name != s[0].skill.name {
        assert e in multiset(SortByCount(tail));
        assert e in tail;
        var k :| 0 <= k < |tail| && tail[k] == e;
        assert s[k + 1] == e;
      }
      InsertKeepsNamesDistinct(s[0], SortByCount(tail));
    }
  }

  /** Position of the first requirement naming the entry's skill, or -1
      for a name that is never required. */
  function FirstSeen(flat: seq<Skill>, e: Entry): int
  {
    if HasName(flat, e.skill.name) then FirstIndex(flat, e.skill.name) else -1
  }

  /** Entries listed by increasing position of the first occurrence of their
      skill name among the postings' requirements. */
  ghost predicate InFirstOccurrenceOrder(es: seq<Entry>, flat: seq<Skill>)
  {
    forall a, b :: 0 <= a < b < |es| ==> FirstSeen(flat, es[a]) < FirstSeen(flat, es[b])
  }

  lemma TallyInFirstOccurrenceOrder(flat: seq<Skill>)
    ensures InFirstOccurrenceOrder(TallyValues(flat), flat)
  {
    var values := TallyValues(flat);
    forall a, b | 0 <= a < b < |values|
      ensures FirstSeen(flat, values[a]) < FirstSeen(flat, values[b])
    {
      TallyValuesAt(flat, a);
      TallyValuesAt(flat, b);
      DistinctNamesInFirstOccurrenceOrder(flat, a, b);
    }
  }

  lemma {:induction false} WithCountInOrder(es: seq<Entry>, flat: seq<Skill>, c: nat)
    requires InFirstOccurrenceOrder(es, flat)
    ensures InFirstOccurrenceOrder(WithCount(es, c), flat)
  {
    if es != [] {
      var tail := es[1..];
      assert InFirstOccurrenceOrder(tail, flat) by {
        forall a, b | 0 <= a < b < |tail| ensures FirstSeen(flat, tail[a]) < FirstSeen(flat, tail[b]) {
          assert tail[a] == es[a + 1] && tail[b] == es[b + 1];
        }
      }
      WithCountInOrder(tail, flat, c);
      if es[0].count == c {
        PrependInOrder(es, flat, c);
      }
    }
  }

  lemma PrependInOrder(es: seq<Entry>, flat: seq<Skill>, c: nat)
    requires es != [] && InFirstOccurrenceOrder(es, flat)
    requires InFirstOccurrenceOrder(WithCount(es[1..], c), flat)
    ensures InFirstOccurrenceOrder([es[0]] + WithCount(es[1..], c), flat)
  {
    var tail := es[1..];
    var w := WithCount(tail, c);
    forall b | 0 <= b < |w| ensures FirstSeen(flat, es[0]) < FirstSeen(flat, w[b]) {
      WithCountMembers(tail, c, w[b]);
      var k :| 0 <= k < |tail| && tail[k] == w[b];
      assert es[k + 1] == w[b];
    }
    var r := [es[0]] + w;
    forall a, b | 0 <= a < b < |r| ensures FirstSeen(flat, r[a]) < FirstSeen(flat, r[b]) {
      assert r[b] == w[b - 1];
      if a > 0 { assert r[a] == w[a - 1]; }
    }
  }

  /** Stable ties: trending entries with equal counts appear in the order in
      which their skill names were first required. */
  lemma TiesInFirstOccurrenceOrder(flat: seq<Skill>, i: nat, j: nat)
    requires i < j < |Trending(TallyValues(flat))|
    requires Trending(TallyValues(flat))[i].count == Trending(TallyValues(flat))[j].count
    ensures var t := Trending(TallyValues(flat));
            HasName(flat, t[i].skill.name) && HasName(flat, t[j].skill.name) &&
            FirstIndex(flat, t[i].skill.name) < FirstIndex(flat, t[j].skill.name)
  {
    var values := TallyValues(flat);
    var t := Trending(values);
    var c := t[i].count;
    TallyInFirstOccurrenceOrder(flat);
    WithCountInOrder(values, flat, c);
    TrendingStable(values, c);
    var wt := WithCount(t, c);
    var wv := WithCount(values, c);
    WithCountAt(t, i);
    WithCountAt(t, j);
    WithCountBefore(t, i, j);
    var p := |WithCount(t[..i], c)|;
    var q := |WithCount(t[..j], c)|;
    assert wt[p] == t[i] && wt[q] == t[j];
    assert wv[p] == t[i] && wv[q] == t[j];
    TrendingEntry(flat, i);
    TrendingEntry(flat, j);
  }
}
