/** The frequency table that analyzeSkillsGap builds over the skills that
    the job postings require: one entry per distinct skill name, holding how
    often the name is required and the skill object first seen under it. */
module Tally {

  /** A catalog skill as the store returns it. */
  datatype Skill = Skill(id: string, name: string)

  /** A job posting with its required skills, in the order the store lists them. */
  datatype Job = Job(id: string, title: string, requiredSkills: seq<Skill>)

  /** One value of the frequency table. */
  datatype Entry = Entry(count: nat, skill: Skill)

  /** The table as a plain JavaScript object: own properties keyed by skill
      name, and the order in which those properties were first created. */
  datatype CountTable = CountTable(entries: map<string, Entry>, order: seq<string>)

  /** Every required skill of every posting: postings in order, and each
      posting's requirements in order (the visiting order of the two nested
      forEach loops). */
  function Flatten(jobs: seq<Job>): seq<Skill>
  {
    if jobs == [] then [] else Flatten(jobs[..|jobs| - 1]) + jobs[|jobs| - 1].requiredSkills
  }

  /** A skill is visited by the loops exactly when some posting requires it. */
  lemma {:induction false} FlattenMembers(jobs: seq<Job>, x: Skill)
    ensures x in Flatten(jobs) <==>
            exists j, k :: 0 <= j < |jobs| && 0 <= k < |jobs[j].requiredSkills| && jobs[j].requiredSkills[k] == x
  {
    if jobs != [] {
      var init := jobs[..|jobs| - 1];
      var last := jobs[|jobs| - 1];
      FlattenMembers(init, x);
      assert Flatten(jobs) == Flatten(init) + last.requiredSkills;
      if x in Flatten(init) {
        var j, k :| 0 <= j < |init| && 0 <= k < |init[j].requiredSkills| && init[j].requiredSkills[k] == x;
        assert jobs[j] == init[j];
      }
      if exists j, k :: 0 <= j < |jobs| && 0 <= k < |jobs[j].requiredSkills| && jobs[j].requiredSkills[k] == x {
        var j, k :| 0 <= j < |jobs| && 0 <= k < |jobs[j].requiredSkills| && jobs[j].requiredSkills[k] == x;
        if j < |init| {
          assert init[j] == jobs[j];
        } else {
          assert last.requiredSkills[k] == x;
        }
      }
    }
  }

  /** Number of required-skill entries in `s` carrying `name`. */
  function CountName(s: seq<Skill>, name: string): nat
  {
    if s == [] then 0
    else CountName(s[..|s| - 1], name) + (if s[|s| - 1].name == name then 1 else 0)
  }

  /** Some element of `s` carries `name`. */
  predicate HasName(s: seq<Skill>, name: string)
  {
    s != [] && (s[|s| - 1].name == name || HasName(s[..|s| - 1], name))
  }

  /** Position of the first element of `s` carrying `name`. */
  function FirstIndex(s: seq<Skill>, name: string): (k: nat)
    requires HasName(s, name)
    ensures k < |s| && s[k].name == name
    ensures forall j :: 0 <= j < k ==> s[j].name != name
  {
    if HasName(s[..|s| - 1], name) then FirstIndex(s[..|s| - 1], name)
    else NameAbsent(s[..|s| - 1], name); |s| - 1
  }

  /** Without the name, no position carries it. */
  lemma {:induction false} NameAbsent(s: seq<Skill>, name: string)
    requires !HasName(s, name)
    ensures forall j :: 0 <= j < |s| ==> s[j].name != name
  {
    if s != [] {
      var init := s[..|s| - 1];
      NameAbsent(init, name);
      assert forall j :: 0 <= j < |init| ==> init[j] == s[j];
    }
  }

  /** The distinct names of `s`, in order of first occurrence. */
  function DistinctNames(s: seq<Skill>): (r: seq<string>)
    ensures forall n :: n in r <==> HasName(s, n)
    ensures forall i, j :: 0 <= i < j < |r| ==> r[i] != r[j]
  {
    if s == [] then []
    else
      var p := DistinctNames(s[..|s| - 1]);
      if s[|s| - 1].name in p then p else p + [s[|s| - 1].name]
  }

  /** The entry the table should hold for a name required in `s`. */
  function EntryFor(s: seq<Skill>, name: string): Entry
    requires HasName(s, name)
  {
    Entry(CountName(s, name), s[FirstIndex(s, name)])
  }

  /** Entries for the listed names, in the listed order. */
  function EntriesFor(s: seq<Skill>, names: seq<string>): seq<Entry>
    requires forall n :: n in names ==> HasName(s, n)
  {
    if names == [] then []
    else EntriesFor(s, names[..|names| - 1]) + [EntryFor(s, names[|names| - 1])]
  }

  /** What Object.values lists after the tally: one entry per distinct
      required name, in order of first occurrence. */
  function TallyValues(s: seq<Skill>): seq<Entry>
  {
    EntriesFor(s, DistinctNames(s))
  }

  /** Sum of the counts of a list of entries. */
  function TotalCount(es: seq<Entry>): nat
  {
    if es == [] then 0 else TotalCount(es[..|es| - 1]) + es[|es| - 1].count
  }

  /** The table's own keys are exactly the distinct names of its order. */
  predicate ValidTable(t: CountTable)
  {
    (forall i, j :: 0 <= i < j < |t.order| ==> t.order[i] != t.order[j]) &&
    (forall n :: n in t.entries ==> n in t.order) &&
    (forall n :: n in t.order ==> n in t.entries)
  }

  /** Object.values of the table: one value per own key, each at the place
      where its key was created. */
  function ObjectValues(t: CountTable): (r: seq<Entry>)
    requires ValidTable(t)
    ensures |r| == |t.order| == |t.entries|
    ensures forall i :: 0 <= i < |r| ==> r[i] == t.entries[t.order[i]]
  {
    DistinctCount(t.order);
    assert t.entries.Keys == set n | n in t.order;
    seq(|t.order|, i requires 0 <= i < |t.order| => t.entries[t.order[i]])
  }

  /** Every own key's value is listed, at the position where the key was created. */
  lemma ObjectValuesOwnKeys(t: CountTable, n: string)
    requires ValidTable(t) && n in t.entries
    ensures exists i :: 0 <= i < |ObjectValues(t)| && t.order[i] == n && ObjectValues(t)[i] == t.entries[n]
  {
    var i :| 0 <= i < |t.order| && t.order[i] == n;
    assert ObjectValues(t)[i] == t.entries[n];
  }

  /** A list without repeats has as many members as positions. */
  lemma {:induction false} DistinctCount(names: seq<string>)
    requires forall i, j :: 0 <= i < j < |names| ==> names[i] != names[j]
    ensures |set n | n in names| == |names|
  {
    if names != [] {
      var init := names[..|names| - 1];
      var last := names[|names| - 1];
      DistinctCount(init);
      assert (set n | n in names) == (set n | n in init) + {last};
      assert last !in (set n | n in init);
    }
  }

  /** The table holds exactly the tally of `s`. */
  ghost predicate Tabulates(t: CountTable, s: seq<Skill>)
  {
    ValidTable(t) && t.order == DistinctNames(s) &&
    forall n :: n in t.entries ==> HasName(s, n) && t.entries[n] == EntryFor(s, n)
  }

  // ---------------------------------------------------------------------
  // Facts about the specification functions

  /** How each specification function changes when one more required skill is seen. */
  lemma SnocFacts(s: seq<Skill>, x: Skill, n: string)
    ensures CountName(s + [x], n) == CountName(s, n) + (if x.name == n then 1 else 0)
    ensures HasName(s + [x], n) <==> HasName(s, n) || x.name == n
    ensures HasName(s, n) ==> FirstIndex(s + [x], n) == FirstIndex(s, n)
    ensures !HasName(s, n) && x.name == n ==> FirstIndex(s + [x], n) == |s|
    ensures DistinctNames(s + [x]) ==
            if HasName(s, x.name) then DistinctNames(s) else DistinctNames(s) + [x.name]
  {
    assert (s + [x])[..|s|] == s;
  }

  /** HasName means what it says: some position carries the name. */
  lemma {:induction false} HasNameAt(s: seq<Skill>, name: string)
    ensures HasName(s, name) <==> exists k :: 0 <= k < |s| && s[k].name == name
  {
    if s != [] {
      var init := s[..|s| - 1];
      HasNameAt(init, name);
      if HasName(s, name) {
        var k := FirstIndex(s, name);
        assert s[k].name == name;
      } else {
        NameAbsent(s, name);
      }
    }
  }

  /** A name is counted at least once exactly when it is required somewhere. */
  lemma {:induction false} CountPositive(s: seq<Skill>, name: string)
    ensures CountName(s, name) > 0 <==> HasName(s, name)
  {
    if s != [] {
      CountPositive(s[..|s| - 1], name);
    }
  }

  lemma {:induction false} EntriesForAt(s: seq<Skill>, names: seq<string>, i: nat)
    requires forall n :: n in names ==> HasName(s, n)
    requires i < |names|
    ensures |EntriesFor(s, names)| == |names|
    ensures EntriesFor(s, names)[i] == EntryFor(s, names[i])
  {
    var init := names[..|names| - 1];
    EntriesForLength(s, init);
    if i < |names| - 1 {
      EntriesForAt(s, init, i);
    }
  }

  lemma {:induction false} EntriesForLength(s: seq<Skill>, names: seq<string>)
    requires forall n :: n in names ==> HasName(s, n)
    ensures |EntriesFor(s, names)| == |names|
  {
    if names != [] {
      EntriesForLength(s, names[..|names| - 1]);
    }
  }

  /** Occurrences of `n` in a list of names. */
  function Occurrences(names: seq<string>, n: string): nat
  {
    if names == [] then 0
    else Occurrences(names[..|names| - 1], n) + (if names[|names| - 1] == n then 1 else 0)
  }

  lemma {:induction false} OccurrencesDistinct(names: seq<string>, n: string)
    requires forall i, j :: 0 <= i < j < |names| ==> names[i] != names[j]
    ensures Occurrences(names, n) == if n in names then 1 else 0
  {
    if names != [] {
      var init := names[..|names| - 1];
      OccurrencesDistinct(init, n);
      assert names == init + [names[|names| - 1]];
    }
  }

  /** A name required before is still required after one more skill is seen. */
  lemma StillNamed(s: seq<Skill>, x: Skill, names: seq<string>)
    requires forall n :: n in names ==> HasName(s, n)
    ensures forall n :: n in names ==> HasName(s + [x], n)
  {
    forall n | n in names ensures HasName(s + [x], n) { SnocFacts(s, x, n); }
  }

  /** Seeing one more required skill raises the total over `names` by the
      number of times its name is listed. */
  lemma {:induction false} TotalCountStep(s: seq<Skill>, x: Skill, names: seq<string>)
    requires forall n :: n in names ==> HasName(s, n)
    ensures forall n :: n in names ==> HasName(s + [x], n)
    ensures TotalCount(EntriesFor(s + [x], names)) ==
            TotalCount(EntriesFor(s, names)) + Occurrences(names, x.name)
  {
    StillNamed(s, x, names);
    if names != [] {
      var init := names[..|names| - 1];
      var last := names[|names| - 1];
      TotalCountStep(s, x, init);
      SnocFacts(s, x, last);
      var before := EntriesFor(s, names);
      var after := EntriesFor(s + [x], names);
      assert before == EntriesFor(s, init) + [EntryFor(s, last)];
      assert after == EntriesFor(s + [x], init) + [EntryFor(s + [x], last)];
      assert before[..|before| - 1] == EntriesFor(s, init);
      assert after[..|after| - 1] == EntriesFor(s + [x], init);
      assert TotalCount(before) == TotalCount(EntriesFor(s, init)) + CountName(s, last);
      assert TotalCount(after) == TotalCount(EntriesFor(s + [x], init)) + CountName(s + [x], last);
      assert Occurrences(names, x.name) == Occurrences(init, x.name) + (if last == x.name then 1 else 0);
    }
  }

  /** The counts add up to the number of (posting, required skill) pairs. */
  lemma {:induction false} TallyTotal(s: seq<Skill>)
    ensures TotalCount(TallyValues(s)) == |s|
  {
    if s != [] {
      var init := s[..|s| - 1];
      var x := s[|s| - 1];
      assert s == init + [x];
      TallyTotal(init);
      var names := DistinctNames(init);
      TotalCountStep(init, x, names);
      OccurrencesDistinct(names, x.name);
      SnocFacts(init, x, x.name);
      if !HasName(init, x.name) {
        var names' := names + [x.name];
        assert names'[..|names'| - 1] == names;
        SnocFacts(init, x, x.name);
        CountPositive(init, x.name);
        var es := EntriesFor(s, names');
        assert es[..|es| - 1] == EntriesFor(s, names);
      }
    }
  }

  /** Each value of the tally is the entry for its own distinct name: the
      count of that name (at least one) and the skill object of its first
      occurrence, never a later one. */
  lemma TallyValuesAt(s: seq<Skill>, i: nat)
    requires i < |TallyValues(s)|
    ensures |TallyValues(s)| == |DistinctNames(s)|
    ensures TallyValues(s)[i].skill.name == DistinctNames(s)[i]
    ensures TallyValues(s)[i].count == CountName(s, DistinctNames(s)[i]) >= 1
    ensures TallyValues(s)[i].skill == s[FirstIndex(s, DistinctNames(s)[i])]
  {
    var names := DistinctNames(s);
    EntriesForLength(s, names);
    EntriesForAt(s, names, i);
    CountPositive(s, names[i]);
  }

  /** The values carry pairwise distinct names. */
  lemma TallyNamesDistinct(s: seq<Skill>, i: nat, j: nat)
    requires i < j < |TallyValues(s)|
    ensures TallyValues(s)[i].skill.name != TallyValues(s)[j].skill.name
  {
    TallyValuesAt(s, i);
    TallyValuesAt(s, j);
  }

  /** The values are listed in order of the first occurrence of their names. */
  lemma {:induction false} DistinctNamesInFirstOccurrenceOrder(s: seq<Skill>, i: nat, j: nat)
    requires i < j < |DistinctNames(s)|
    ensures FirstIndex(s, DistinctNames(s)[i]) < FirstIndex(s, DistinctNames(s)[j])
  {
    var init := s[..|s| - 1];
    var x := s[|s| - 1];
    assert s == init + [x];
    var p := DistinctNames(init);
    SnocFacts(init, x, p[i]);
    SnocFacts(init, x, x.name);
    if j < |p| {
      SnocFacts(init, x, p[j]);
      DistinctNamesInFirstOccurrenceOrder(init, i, j);
    } else {
      SnocFacts(init, x, DistinctNames(s)[j]);
    }
  }

  // ---------------------------------------------------------------------
  // The tally loop

  /** The nested forEach loops of index.js: for each required skill, create
      the entry `{count: 0, skill}` when the name has no own entry yet, then
      increment the entry's count. */
  method CountRequiredSkills(jobs: seq<Job>) returns (table: CountTable)
    ensures Tabulates(table, Flatten(jobs))
    ensures ObjectValues(table) == TallyValues(Flatten(jobs))
  {
    table := CountTable(map[], []);
    var i := 0;
    while i < |jobs|
      invariant 0 <= i <= |jobs|
      invariant Tabulates(table, Flatten(jobs[..i]))
    {
      table := CountPostingSkills(table, Flatten(jobs[..i]), jobs[i].requiredSkills);
      assert jobs[..i + 1][..i] == jobs[..i];
      i := i + 1;
    }
    assert jobs[..i] == jobs;
    ValuesMatch(table, Flatten(jobs));
  }

  /** The inner forEach: tally one posting's required skills on top of the
      table built from the skills `done` seen so far. */
  method CountPostingSkills(t0: CountTable, ghost done: seq<Skill>, required: seq<Skill>)
    returns (table: CountTable)
    requires Tabulates(t0, done)
    ensures Tabulates(table, done + required)
  {
    table := t0;
    var j := 0;
    ghost var seen := done;
    assert done + required[..0] == done;
    while j < |required|
      invariant 0 <= j <= |required|
      invariant seen == done + required[..j]
      invariant Tabulates(table, seen)
    {
      var rs := required[j];
      table := CountSkill(table, seen, rs);
      seen := seen + [rs];
      TakeOneMore(required, j);
      j := j + 1;
    }
    assert required[..j] == required;
  }

  /** The body of the inner forEach for one required skill `rs`. */
  method CountSkill(t0: CountTable, ghost seen: seq<Skill>, rs: Skill) returns (table: CountTable)
    requires Tabulates(t0, seen)
    ensures Tabulates(table, seen + [rs])
  {
    table := t0;
    if rs.name !in table.entries {
      table := CountTable(table.entries[rs.name := Entry(0, rs)], table.order + [rs.name]);
    }
    var e := table.entries[rs.name];
    table := table.(entries := table.entries[rs.name := e.(count := e.count + 1)]);
    Record(t0, seen, rs, table);
  }

  lemma TakeOneMore<T>(s: seq<T>, j: nat)
    requires j < |s|
    ensures s[..j + 1] == s[..j] + [s[j]]
  {
  }

  /** One step of the inner loop: a name seen for the first time gets the
      entry `{count: 1, skill}` and is appended to the key order; a name seen
      before keeps its skill object and its place, and only its count goes up. */
  lemma Record(t: CountTable, s: seq<Skill>, x: Skill, t': CountTable)
    requires Tabulates(t, s)
    requires var t1 := if x.name !in t.entries
                       then CountTable(t.entries[x.name := Entry(0, x)], t.order + [x.name]) else t;
             x.name in t1.entries &&
             t' == t1.(entries := t1.entries[x.name := t1.entries[x.name].(count := t1.entries[x.name].count + 1)])
    ensures Tabulates(t', s + [x])
  {
    SnocFacts(s, x, x.name);
    CountPositive(s, x.name);
    if x.name !in t.entries {
      assert t' == CountTable(t.entries[x.name := Entry(1, x)], t.order + [x.name]);
    }
    forall n | n in t'.entries
      ensures HasName(s + [x], n) && t'.entries[n] == EntryFor(s + [x], n)
    {
      SnocFacts(s, x, n);
    }
  }

  lemma ValuesMatch(t: CountTable, s: seq<Skill>)
    requires Tabulates(t, s)
    ensures ObjectValues(t) == TallyValues(s)
  {
    var names := DistinctNames(s);
    var ov, tv := ObjectValues(t), TallyValues(s);
    EntriesForLength(s, names);
    assert |ov| == |names| == |tv|;
    forall i | 0 <= i < |names| ensures ov[i] == tv[i] {
      EntriesForAt(s, names, i);
    }
    assert ov == tv;
  }

  // ---------------------------------------------------------------------
  // The lookup as written

  /** Property names that every object literal `{}` inherits from
      Object.prototype. */
  const InheritedKeys: set<string> :=
    {"constructor", "hasOwnProperty", "isPrototypeOf", "propertyIsEnumerable",
     "toLocaleString", "toString", "valueOf", "__proto__",
     "__defineGetter__", "__defineSetter__", "__lookupGetter__", "__lookupSetter__"}

  /** The tally as index.js writes it, on `const requiredSkillsCount = {}`:
      the test `!requiredSkillsCount[name]` also sees inherited properties.
      For an inherited name the lookup finds a function or an object, which
      is truthy, so no own entry is created, and `count++` lands on the
      inherited value instead. */
  function TallyAsWritten(s: seq<Skill>): (t: CountTable)
    ensures forall n :: n in t.entries ==> n !in InheritedKeys
  {
    if s == [] then CountTable(map[], [])
    else
      var t := TallyAsWritten(s[..|s| - 1]);
      var x := s[|s| - 1];
      if x.name in t.entries then
        CountTable(t.entries[x.name := t.entries[x.name].(count := t.entries[x.name].count + 1)], t.order)
      else if x.name in InheritedKeys then t
      else CountTable(t.entries[x.name := Entry(1, x)], t.order + [x.name])
  }

  /** Without inherited names among the requirements, the code as written
      computes the tally. */
  lemma {:induction false} AsWrittenAgreesOnOrdinaryNames(s: seq<Skill>)
    requires forall k :: 0 <= k < |s| ==> s[k].name !in InheritedKeys
    ensures Tabulates(TallyAsWritten(s), s)
  {
    if s != [] {
      var init, x := s[..|s| - 1], s[|s| - 1];
      assert s == init + [x];
      assert forall k :: 0 <= k < |init| ==> init[k] == s[k];
      AsWrittenAgreesOnOrdinaryNames(init);
      var t := TallyAsWritten(init);
      AsWrittenStep(t, x, TallyAsWritten(s));
      Record(t, init, x, TallyAsWritten(s));
    }
  }

  /** Off the inherited names, one step of TallyAsWritten is the step of the loop. */
  lemma AsWrittenStep(t: CountTable, x: Skill, t': CountTable)
    requires x.name !in InheritedKeys
    requires t' == if x.name in t.entries
                   then CountTable(t.entries[x.name := t.entries[x.name].(count := t.entries[x.name].count + 1)], t.order)
                   else CountTable(t.entries[x.name := Entry(1, x)], t.order + [x.name])
    ensures var t1 := if x.name !in t.entries
                      then CountTable(t.entries[x.name := Entry(0, x)], t.order + [x.name]) else t;
            x.name in t1.entries &&
            t' == t1.(entries := t1.entries[x.name := t1.entries[x.name].(count := t1.entries[x.name].count + 1)])
  {
    if x.name !in t.entries {
      assert t.entries[x.name := Entry(0, x)][x.name := Entry(1, x)] == t.entries[x.name := Entry(1, x)];
    }
  }

  /** A posting that requires a skill named "toString": the code as written
      lists no entry for it, whereas the tally has one with count 1. */
  lemma AsWrittenDropsInheritedName(id: string)
    ensures var s := [Skill(id, "toString")];
            TallyAsWritten(s).order == [] && TallyValues(s) == [Entry(1, Skill(id, "toString"))]
  {
    var s := [Skill(id, "toString")];
    assert s[..0] == [];
    assert HasName(s, "toString");
    assert DistinctNames(s) == ["toString"];
    assert FirstIndex(s, "toString") == 0;
    assert CountName(s, "toString") == 1;
    var names := DistinctNames(s);
    assert names[..0] == [];
    assert EntriesFor(s, names) == EntriesFor(s, []) + [EntryFor(s, "toString")];
  }
}
