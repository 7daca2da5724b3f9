/** The analytics handlers: the overall summary with performance levels, per-category
    and per-residence statistics, the toppers list and the at-risk list. */
module Analytics {
  import opened Outcome
  import opened Records
  import opened Seqs
  import opened GpaStats
  import opened GpaSort

  // ---------------------------------------------------------------- summary

  datatype PerformanceLevel = Excellent | Good | Average | BelowAverage

  /** The bucket of a GPA: the first of `>= 9`, `>= 7`, `>= 5` that holds, else below average. */
  function Level(g: real): (l: PerformanceLevel)
    ensures l == Excellent <==> g >= 9.0
    ensures l == Good <==> 7.0 <= g < 9.0
    ensures l == Average <==> 5.0 <= g < 7.0
    ensures l == BelowAverage <==> g < 5.0
  {
    if g >= 9.0 then Excellent
    else if g >= 7.0 then Good
    else if g >= 5.0 then Average
    else BelowAverage
  }

  /** How many records fall in each performance level. */
  datatype Levels = Levels(excellent: nat, good: nat, average: nat, belowAverage: nat)

  function LevelsTotal(t: Levels): nat
  {
    t.excellent + t.good + t.average + t.belowAverage
  }

  /** The number of GPAs in level `l`. */
  function CountIn(gs: seq<real>, l: PerformanceLevel): nat
  {
    |Filter(gs, (g: real) => Level(g) == l)|
  }

  /** Adds one to the count of level `l`. */
  function Bump(t: Levels, l: PerformanceLevel): Levels
  {
    match l
    case Excellent => t.(excellent := t.excellent + 1)
    case Good => t.(good := t.good + 1)
    case Average => t.(average := t.average + 1)
    case BelowAverage => t.(belowAverage := t.belowAverage + 1)
  }

  /** One pass over the GPAs, adding each to the count of its level. */
  function Tally(gs: seq<real>): (t: Levels)
    ensures t.excellent == CountIn(gs, Excellent)
    ensures t.good == CountIn(gs, Good)
    ensures t.average == CountIn(gs, Average)
    ensures t.belowAverage == CountIn(gs, BelowAverage)
    ensures LevelsTotal(t) == |gs|
    decreases |gs|
  {
    if |gs| == 0 then Levels(0, 0, 0, 0)
    else Bump(Tally(gs[1..]), Level(gs[0]))
  }

  datatype Summary =
    | NoStudents
    | Summary(totalStudents: nat, averageGpa: real, highestGpa: real, lowestGpa: real, levels: Levels)

  function PerformanceSummary(db: seq<Student>): (r: Summary)
    ensures r.NoStudents? <==> |db| == 0
    ensures r.Summary? ==> r.totalStudents == |db| && LevelsTotal(r.levels) == |db|
    ensures r.Summary? ==> r.averageGpa == Mean(Gpas(db)) && r.lowestGpa <= r.averageGpa <= r.highestGpa
    ensures r.Summary? ==> forall i :: 0 <= i < |db| ==> r.lowestGpa <= db[i].gpa <= r.highestGpa
    ensures r.Summary? ==> exists i :: 0 <= i < |db| && db[i].gpa == r.highestGpa
    ensures r.Summary? ==> exists i :: 0 <= i < |db| && db[i].gpa == r.lowestGpa
    ensures r.Summary? ==> r.levels.excellent == CountIn(Gpas(db), Excellent)
    ensures r.Summary? ==> r.levels.good == CountIn(Gpas(db), Good)
    ensures r.Summary? ==> r.levels.average == CountIn(Gpas(db), Average)
    ensures r.Summary? ==> r.levels.belowAverage == CountIn(Gpas(db), BelowAverage)
  {
    if |db| == 0 then NoStudents
    else
      var gs := Gpas(db);
      MeanBetweenExtremes(gs);
      assert Max(gs) in gs && Min(gs) in gs;
      Summary(|db|, Mean(gs), Max(gs), Min(gs), Tally(gs))
  }

  // ------------------------------------------------------------ group stats

  /** The record field the statistics are grouped by. */
  datatype GroupField = CategoryField | ResidenceField

  /** The value of the grouping field: the key of a record's group. */
  datatype GroupKey = CategoryKey(category: Category) | ResidenceKey(residence: Residence)

  function KeyOf(field: GroupField, s: Student): GroupKey
  {
    match field
    case CategoryField => CategoryKey(s.category)
    case ResidenceField => ResidenceKey(s.residence)
  }

  /** Some record of group `k` has GPA `g`. */
  predicate GpaInGroup(db: seq<Student>, field: GroupField, k: GroupKey, g: real)
  {
    exists i :: 0 <= i < |db| && KeyOf(field, db[i]) == k && db[i].gpa == g
  }

  /** The GPAs of the records in group `k`, in list order: the list the grouping pass
      builds for that key. */
  function Members(db: seq<Student>, field: GroupField, k: GroupKey): seq<real>
    decreases |db|
  {
    if |db| == 0 then []
    else
      var earlier := Members(db[..|db| - 1], field, k);
      if KeyOf(field, db[|db| - 1]) == k then earlier + [db[|db| - 1].gpa] else earlier
  }

  /** Every GPA in a group's list belongs to a record of that group. */
  lemma {:induction false} MembersSound(db: seq<Student>, field: GroupField, k: GroupKey)
    ensures forall j :: 0 <= j < |Members(db, field, k)| ==> GpaInGroup(db, field, k, Members(db, field, k)[j])
    decreases |db|
  {
    if |db| > 0 {
      var init := db[..|db| - 1];
      MembersSound(init, field, k);
      assert forall i :: 0 <= i < |init| ==> init[i] == db[i];
      var gs := Members(db, field, k);
      forall j | 0 <= j < |gs|
        ensures GpaInGroup(db, field, k, gs[j])
      {
        if j < |Members(init, field, k)| {
          assert GpaInGroup(init, field, k, gs[j]);
          var i :| 0 <= i < |init| && KeyOf(field, init[i]) == k && init[i].gpa == gs[j];
          assert db[i] == init[i];
        } else {
          assert gs[j] == db[|db| - 1].gpa;
        }
      }
    }
  }

  /** The GPA of every record of a group is in that group's list. */
  lemma {:induction false} MembersComplete(db: seq<Student>, field: GroupField, k: GroupKey)
    ensures forall i :: 0 <= i < |db| && KeyOf(field, db[i]) == k ==> db[i].gpa in Members(db, field, k)
    decreases |db|
  {
    if |db| > 0 {
      var init := db[..|db| - 1];
      MembersComplete(init, field, k);
      assert forall i :: 0 <= i < |init| ==> init[i] == db[i];
    }
  }

  /** A group's list is exactly the GPAs of the records with its key, one per record and
      in list order, so its length is the number of such records. */
  lemma {:induction false} MembersAreFilter(db: seq<Student>, field: GroupField, k: GroupKey)
    ensures Members(db, field, k) == Gpas(Filter(db, (s: Student) => KeyOf(field, s) == k))
    decreases |db|
  {
    if |db| > 0 {
      var init := db[..|db| - 1];
      var x := db[|db| - 1];
      assert db == init + [x];
      MembersAreFilter(init, field, k);
      FilterSnoc(init, x, (s: Student) => KeyOf(field, s) == k);
      var f := Filter(init, (s: Student) => KeyOf(field, s) == k);
      if KeyOf(field, x) == k {
        assert Gpas(f + [x]) == Gpas(f) + [x.gpa];
      } else {
        assert f + [] == f;
      }
    }
  }

  predicate Distinct(ks: seq<GroupKey>)
  {
    forall i, j :: 0 <= i < j < |ks| ==> ks[i] != ks[j]
  }

  /** The group keys in order of first appearance, as a dictionary fills its keys. */
  function KeysOf(db: seq<Student>, field: GroupField): (ks: seq<GroupKey>)
    ensures Distinct(ks)
    ensures forall i :: 0 <= i < |db| ==> KeyOf(field, db[i]) in ks
    decreases |db|
  {
    if |db| == 0 then []
    else
      var init := db[..|db| - 1];
      var last := db[|db| - 1];
      var earlier := KeysOf(init, field);
      assert forall i :: 0 <= i < |init| ==> init[i] == db[i];
      if KeyOf(field, last) in earlier then earlier else earlier + [KeyOf(field, last)]
  }

  /** Every key of the grouping has at least one member. */
  lemma {:induction false} KeysHaveMembers(db: seq<Student>, field: GroupField)
    ensures forall j :: 0 <= j < |KeysOf(db, field)| ==> |Members(db, field, KeysOf(db, field)[j])| > 0
    decreases |db|
  {
    if |db| > 0 {
      var init := db[..|db| - 1];
      KeysHaveMembers(init, field);
      var ks := KeysOf(db, field);
      forall j | 0 <= j < |ks|
        ensures |Members(db, field, ks[j])| > 0
      {
        if j < |KeysOf(init, field)| {
          assert |Members(db, field, ks[j])| >= |Members(init, field, ks[j])|;
        }
      }
    }
  }

  /** A key that appears in no record has no members. */
  lemma {:induction false} AbsentKeyHasNoMembers(db: seq<Student>, field: GroupField, k: GroupKey)
    requires k !in KeysOf(db, field)
    ensures Members(db, field, k) == []
    decreases |db|
  {
    if |db| > 0 {
      var init := db[..|db| - 1];
      assert forall i :: 0 <= i < |init| ==> init[i] == db[i];
      assert k !in KeysOf(init, field);
      AbsentKeyHasNoMembers(init, field, k);
    }
  }

  /** Statistics of one group. */
  datatype Group = Group(key: GroupKey, totalStudents: nat, averageGpa: real, highestGpa: real, lowestGpa: real)

  function GroupOf(k: GroupKey, gs: seq<real>): (g: Group)
    requires |gs| > 0
    ensures g.key == k && g.totalStudents == |gs|
  {
    Group(k, |gs|, Mean(gs), Max(gs), Min(gs))
  }

  /** The statistics of each key in `ks`, in the order of `ks`. */
  function BuildGroups(db: seq<Student>, field: GroupField, ks: seq<GroupKey>): (r: seq<Group>)
    requires forall j :: 0 <= j < |ks| ==> |Members(db, field, ks[j])| > 0
    ensures |r| == |ks|
    ensures forall j :: 0 <= j < |ks| ==> r[j] == GroupOf(ks[j], Members(db, field, ks[j]))
    decreases |ks|
  {
    if |ks| == 0 then []
    else [GroupOf(ks[0], Members(db, field, ks[0]))] + BuildGroups(db, field, ks[1..])
  }

  /** A group's extremes are GPAs of its members and bound every member's GPA. */
  lemma GroupAgainstRecords(db: seq<Student>, field: GroupField, k: GroupKey)
    requires |Members(db, field, k)| > 0
    ensures GroupOf(k, Members(db, field, k)).lowestGpa <= GroupOf(k, Members(db, field, k)).averageGpa
    ensures GroupOf(k, Members(db, field, k)).averageGpa <= GroupOf(k, Members(db, field, k)).highestGpa
    ensures GroupOf(k, Members(db, field, k)).highestGpa in Members(db, field, k)
    ensures GroupOf(k, Members(db, field, k)).lowestGpa in Members(db, field, k)
    ensures forall i :: 0 <= i < |db| && KeyOf(field, db[i]) == k ==>
              GroupOf(k, Members(db, field, k)).lowestGpa <= db[i].gpa <= GroupOf(k, Members(db, field, k)).highestGpa
  {
    var gs := Members(db, field, k);
    var g := GroupOf(k, gs);
    MeanBetweenExtremes(gs);
    MembersComplete(db, field, k);
    forall i | 0 <= i < |db| && KeyOf(field, db[i]) == k
      ensures g.lowestGpa <= db[i].gpa <= g.highestGpa
    {
      var c :| 0 <= c < |gs| && gs[c] == db[i].gpa;
    }
  }

  /** Each entry has its own key, every record's key has an entry, and no entry is empty. */
  predicate OneEntryPerKey(db: seq<Student>, field: GroupField, r: seq<Group>)
  {
    && (forall i, j :: 0 <= i < j < |r| ==> r[i].key != r[j].key)
    && (forall i :: 0 <= i < |db| ==> exists j :: 0 <= j < |r| && r[j].key == KeyOf(field, db[i]))
    && (forall j :: 0 <= j < |r| ==> r[j].totalStudents == |Members(db, field, r[j].key)| >= 1)
  }

  /** Each entry's lowest and highest GPA are GPAs of its group, bound the GPA of every
      record of the group, and bound the entry's average. */
  predicate ExtremesBoundGroups(db: seq<Student>, field: GroupField, r: seq<Group>)
  {
    && (forall j :: 0 <= j < |r| ==> r[j].lowestGpa <= r[j].averageGpa <= r[j].highestGpa)
    && (forall j :: 0 <= j < |r| ==>
          |Members(db, field, r[j].key)| > 0 && r[j].averageGpa == Mean(Members(db, field, r[j].key)))
    && (forall j :: 0 <= j < |r| ==> r[j].highestGpa in Members(db, field, r[j].key))
    && (forall j :: 0 <= j < |r| ==> r[j].lowestGpa in Members(db, field, r[j].key))
    && (forall j, i :: 0 <= j < |r| && 0 <= i < |db| && KeyOf(field, db[i]) == r[j].key ==>
          r[j].lowestGpa <= db[i].gpa <= r[j].highestGpa)
  }

  /** The entries built for a list of distinct keys covering every record. */
  lemma GroupsCoverRecords(db: seq<Student>, field: GroupField, ks: seq<GroupKey>, r: seq<Group>)
    requires Distinct(ks)
    requires forall i :: 0 <= i < |db| ==> KeyOf(field, db[i]) in ks
    requires forall j :: 0 <= j < |ks| ==> |Members(db, field, ks[j])| > 0
    requires r == BuildGroups(db, field, ks)
    ensures OneEntryPerKey(db, field, r)
  {
    forall i | 0 <= i < |db|
      ensures exists j :: 0 <= j < |r| && r[j].key == KeyOf(field, db[i])
    {
      var j :| 0 <= j < |ks| && ks[j] == KeyOf(field, db[i]);
      assert r[j].key == ks[j];
    }
  }

  /** The extremes and averages of the entries built for a list of non-empty keys. */
  lemma GroupsBoundedByExtremes(db: seq<Student>, field: GroupField, ks: seq<GroupKey>, r: seq<Group>)
    requires forall j :: 0 <= j < |ks| ==> |Members(db, field, ks[j])| > 0
    requires r == BuildGroups(db, field, ks)
    ensures ExtremesBoundGroups(db, field, r)
  {
    forall j | 0 <= j < |r|
      ensures r[j].lowestGpa <= r[j].averageGpa <= r[j].highestGpa
      ensures r[j].highestGpa in Members(db, field, r[j].key)
      ensures r[j].lowestGpa in Members(db, field, r[j].key)
      ensures forall i :: 0 <= i < |db| && KeyOf(field, db[i]) == r[j].key ==>
                r[j].lowestGpa <= db[i].gpa <= r[j].highestGpa
    {
      GroupAgainstRecords(db, field, ks[j]);
    }
  }

  /** The number of records the entries count together. */
  function TotalOf(r: seq<Group>): nat
  {
    if |r| == 0 then 0 else r[0].totalStudents + TotalOf(r[1..])
  }

  /** The sizes of the groups of the keys in `ks`, added up. */
  function GroupedCount(db: seq<Student>, field: GroupField, ks: seq<GroupKey>): nat
  {
    if |ks| == 0 then 0 else |Members(db, field, ks[0])| + GroupedCount(db, field, ks[1..])
  }

  lemma {:induction false} TotalOfBuild(db: seq<Student>, field: GroupField, ks: seq<GroupKey>)
    requires forall j :: 0 <= j < |ks| ==> |Members(db, field, ks[j])| > 0
    ensures TotalOf(BuildGroups(db, field, ks)) == GroupedCount(db, field, ks)
    decreases |ks|
  {
    if |ks| > 0 {
      TotalOfBuild(db, field, ks[1..]);
      assert BuildGroups(db, field, ks)[1..] == BuildGroups(db, field, ks[1..]);
    }
  }

  /** Appending a record adds one to the count of exactly the key it belongs to. */
  lemma {:induction false} GroupedCountAppend(init: seq<Student>, x: Student, field: GroupField, ks: seq<GroupKey>)
    requires Distinct(ks)
    ensures GroupedCount(init + [x], field, ks)
         == GroupedCount(init, field, ks) + (if KeyOf(field, x) in ks then 1 else 0)
    decreases |ks|
  {
    if |ks| > 0 {
      var db := init + [x];
      assert db[..|db| - 1] == init;
      assert Distinct(ks[1..]);
      GroupedCountAppend(init, x, field, ks[1..]);
      if KeyOf(field, x) == ks[0] {
        assert KeyOf(field, x) !in ks[1..];
      } else {
        assert KeyOf(field, x) in ks <==> KeyOf(field, x) in ks[1..];
      }
    }
  }

  lemma {:induction false} GroupedCountSnoc(db: seq<Student>, field: GroupField, ks: seq<GroupKey>, k: GroupKey)
    ensures GroupedCount(db, field, ks + [k]) == GroupedCount(db, field, ks) + |Members(db, field, k)|
    decreases |ks|
  {
    if |ks| > 0 {
      assert (ks + [k])[1..] == ks[1..] + [k];
      GroupedCountSnoc(db, field, ks[1..], k);
    } else {
      assert (ks + [k])[1..] == [];
    }
  }

  /** The groups partition the list: their sizes add up to the number of records. */
  lemma {:induction false} GroupSizesPartition(db: seq<Student>, field: GroupField)
    ensures GroupedCount(db, field, KeysOf(db, field)) == |db|
    decreases |db|
  {
    if |db| > 0 {
      var init := db[..|db| - 1];
      var x := db[|db| - 1];
      var ks := KeysOf(init, field);
      assert db == init + [x];
      GroupSizesPartition(init, field);
      GroupedCountAppend(init, x, field, ks);
      if KeyOf(field, x) !in ks {
        GroupedCountSnoc(db, field, ks, KeyOf(field, x));
        AbsentKeyHasNoMembers(init, field, KeyOf(field, x));
      }
    }
  }

  /** One entry per distinct value of the field, in order of first appearance. */
  function GroupStats(db: seq<Student>, field: GroupField): (r: seq<Group>)
    ensures OneEntryPerKey(db, field, r)
    ensures ExtremesBoundGroups(db, field, r)
    ensures TotalOf(r) == |db|
    ensures forall j :: 0 <= j < |r| ==>
              r[j].totalStudents == |Filter(db, (s: Student) => KeyOf(field, s) == r[j].key)|
    ensures forall j :: 0 <= j < |r| ==>
              r[j].averageGpa == Mean(Gpas(Filter(db, (s: Student) => KeyOf(field, s) == r[j].key)))
  {
    var ks := KeysOf(db, field);
    KeysHaveMembers(db, field);
    var r := BuildGroups(db, field, ks);
    GroupsCoverRecords(db, field, ks, r);
    GroupsBoundedByExtremes(db, field, ks, r);
    TotalOfBuild(db, field, ks);
    GroupSizesPartition(db, field);
    forall j | 0 <= j < |r|
      ensures r[j].totalStudents == |Filter(db, (s: Student) => KeyOf(field, s) == r[j].key)|
      ensures r[j].averageGpa == Mean(Gpas(Filter(db, (s: Student) => KeyOf(field, s) == r[j].key)))
    {
      MembersAreFilter(db, field, r[j].key);
    }
    r
  }

  /** The per-category statistics. */
  function CategoryWise(db: seq<Student>): (r: seq<Group>)
    ensures OneEntryPerKey(db, CategoryField, r) && TotalOf(r) == |db|
    ensures ExtremesBoundGroups(db, CategoryField, r)
  {
    GroupStats(db, CategoryField)
  }

  /** The per-residence statistics. */
  function ResidenceWise(db: seq<Student>): (r: seq<Group>)
    ensures OneEntryPerKey(db, ResidenceField, r) && TotalOf(r) == |db|
    ensures ExtremesBoundGroups(db, ResidenceField, r)
  {
    GroupStats(db, ResidenceField)
  }

  // ------------------------------------------------------ toppers and at-risk

  /** The records the toppers are chosen from: all of them, or one category's. */
  function Pool(db: seq<Student>, category: Option<Category>): (r: seq<Student>)
    ensures IsSubseq(r, db)
    ensures category.Some? ==> forall i :: 0 <= i < |r| ==> r[i].category == category.value
    ensures forall x :: multiset(r)[x] == if category.None? || x.category == category.value then multiset(db)[x] else 0
  {
    if category.Some? then
      FilterIsSubseq(db, (s: Student) => s.category == category.value);
      FilterMultiset(db, (s: Student) => s.category == category.value);
      Filter(db, (s: Student) => s.category == category.value)
    else
      SubseqRefl(db);
      db
  }

  /** The first `n` records of a list sorted by GPA descending are sorted too, and
      dominate the rest of the list. */
  lemma TakeBest(sorted: seq<Student>, n: nat)
    requires SortedBy(sorted, true) && n <= |sorted|
    ensures SortedBy(sorted[..n], true)
    ensures multiset(sorted[..n]) <= multiset(sorted)
    ensures forall x, y :: x in multiset(sorted[..n]) && y in multiset(sorted) - multiset(sorted[..n]) ==> x.gpa >= y.gpa
  {
    PrefixDominates(sorted, n);
    assert sorted == sorted[..n] + sorted[n..];
    assert multiset(sorted) == multiset(sorted[..n]) + multiset(sorted[n..]);
  }

  datatype TopList = TopList(totalShown: nat, toppers: seq<Student>)

  /** The first `count` records of the pool sorted by GPA, highest first. */
  function Toppers(db: seq<Student>, count: int, category: Option<Category>): (r: Result<TopList>)
    ensures r.Err? <==> !(1 <= count <= 100)
    ensures r.Err? ==> r.error == Unprocessable
    ensures r.Ok? ==> r.value.totalShown == |r.value.toppers|
    ensures r.Ok? ==> |r.value.toppers| == if count < |Pool(db, category)| then count else |Pool(db, category)|
    ensures r.Ok? ==> multiset(r.value.toppers) <= multiset(Pool(db, category))
    ensures r.Ok? ==> SortedBy(r.value.toppers, true)
    ensures r.Ok? ==>
              forall x, y ::
                x in multiset(r.value.toppers) && y in multiset(Pool(db, category)) - multiset(r.value.toppers)
                ==> x.gpa >= y.gpa
  {
    if !(1 <= count <= 100) then Err(Unprocessable)
    else
      var sorted := Sort(Pool(db, category), true);
      var n := if count < |sorted| then count else |sorted|;
      TakeBest(sorted, n);
      Ok(TopList(n, sorted[..n]))
  }

  datatype RiskList = RiskList(threshold: real, totalAtRisk: nat, students: seq<Student>)

  /** The records with a GPA strictly below the threshold, lowest GPA first. */
  function AtRisk(db: seq<Student>, threshold: real): (r: Result<RiskList>)
    ensures r.Err? <==> !(0.0 <= threshold <= 10.0)
    ensures r.Err? ==> r.error == Unprocessable
    ensures r.Ok? ==> r.value.threshold == threshold && r.value.totalAtRisk == |r.value.students|
    ensures r.Ok? ==> forall i :: 0 <= i < |r.value.students| ==> r.value.students[i].gpa < threshold
    ensures r.Ok? ==> forall x :: multiset(r.value.students)[x] == if x.gpa < threshold then multiset(db)[x] else 0
    ensures r.Ok? ==> SortedBy(r.value.students, false)
  {
    if !(0.0 <= threshold <= 10.0) then Err(Unprocessable)
    else
      var below := Filter(db, (s: Student) => s.gpa < threshold);
      FilterMultiset(db, (s: Student) => s.gpa < threshold);
      var sorted := Sort(below, false);
      assert forall i :: 0 <= i < |sorted| ==> sorted[i] in multiset(below);
      Ok(RiskList(threshold, |sorted|, sorted))
  }
}
