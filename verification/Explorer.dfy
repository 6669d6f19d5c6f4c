/** The explorer tree: missions, their klusters and tasks, narrowed by a search
    text. The builder groups rows in indexes first; the functions here say what
    it comes to by plain filtering. The rows are the ones the caller may see. */
module Explorer {
  import opened Model

  datatype MissionRow = MissionRow(id: string, name: Option<string>, description: Option<string>,
                                   tags: Option<string>, owners: Option<string>)
  {
    /** The columns a search looks at. */
    function Texts(): seq<Option<string>> {
      [name, description, tags, owners]
    }
  }

  datatype KlusterRow = KlusterRow(id: string, mission: Option<string>, name: Option<string>,
                                   description: Option<string>, tags: Option<string>, owners: Option<string>)
  {
    function Texts(): seq<Option<string>> {
      [name, description, tags, owners]
    }
  }

  datatype TaskRow = TaskRow(id: string, kluster: string, title: Option<string>, description: Option<string>,
                             owner: Option<string>, status: string)
  {
    function Texts(): seq<Option<string>> {
      [title, description, owner, Some(status)]
    }
  }

  /** A trimmed, lower-cased search text, empty for none, and how a field is
      lower-cased before it is searched. */
  datatype Search = Search(needle: string, lower: string -> string)
  {
    ghost predicate Found(text: string) {
      exists i, j | 0 <= i <= j <= |lower(text)| :: lower(text)[i..j] == needle
    }

    /** _matches_query; without a search text everything matches. */
    ghost predicate Hits(texts: seq<Option<string>>) {
      needle == "" || exists t | t in texts :: t.Some? && t.value != "" && Found(t.value)
    }

    method FoundIn(text: string) returns (found: bool)
      ensures found <==> Found(text)
    {
      var s := lower(text);
      for i := 0 to |s| + 1
        invariant forall a, b | 0 <= a < i && a <= b <= |s| :: s[a..b] != needle
      {
        if i + |needle| <= |s| && s[i..i + |needle|] == needle {
          return true;
        }
      }
      return false;
    }

    method MatchesQuery(texts: seq<Option<string>>) returns (hit: bool)
      ensures hit <==> Hits(texts)
    {
      if needle == "" {
        return true;
      }
      for i := 0 to |texts|
        invariant forall t | t in texts[..i] :: !(t.Some? && t.value != "" && Found(t.value))
      {
        if texts[i].Some? && texts[i].value != "" {
          var found := FoundIn(texts[i].value);
          if found {
            return true;
          }
        }
        assert texts[..i + 1] == texts[..i] + [texts[i]];
      }
      assert texts[..|texts|] == texts;
      return false;
    }
  }

  datatype KlusterSummary =
    KlusterSummary(id: string, taskCount: nat, statusCounts: map<string, nat>, recent: seq<TaskRow>)
  datatype MissionSummary = MissionSummary(id: string, klusterCount: nat, taskCount: nat, klusters: seq<KlusterSummary>)
  datatype Tree = Tree(missionCount: nat, klusterCount: nat, taskCount: nat,
                       missions: seq<MissionSummary>, unassigned: seq<KlusterSummary>)

  // ------------------------------------------------------------ plain filtering

  function TasksOf(tasks: seq<TaskRow>, kluster: string): seq<TaskRow> {
    if tasks == [] then []
    else
      var t := tasks[|tasks| - 1];
      TasksOf(tasks[..|tasks| - 1], kluster) + if t.kluster == kluster then [t] else []
  }

  function KlustersOf(klusters: seq<KlusterRow>, mission: Option<string>): seq<KlusterRow> {
    if klusters == [] then []
    else
      var k := klusters[|klusters| - 1];
      KlustersOf(klusters[..|klusters| - 1], mission) + if k.mission == mission then [k] else []
  }

  ghost function Matching(q: Search, tasks: seq<TaskRow>): seq<TaskRow> {
    if tasks == [] then []
    else
      var t := tasks[|tasks| - 1];
      Matching(q, tasks[..|tasks| - 1]) + if q.Hits(t.Texts()) then [t] else []
  }

  /** The tasks a kluster is shown with, if it is shown at all. */
  ghost function Display(q: Search, missionHit: bool, k: KlusterRow, all: seq<TaskRow>): Option<seq<TaskRow>> {
    if missionHit || q.Hits(k.Texts()) then Some(all)
    else if Matching(q, all) == [] then None
    else Some(Matching(q, all))
  }

  function CountOf(tasks: seq<TaskRow>, status: string): nat {
    if tasks == [] then 0
    else CountOf(tasks[..|tasks| - 1], status) + if tasks[|tasks| - 1].status == status then 1 else 0
  }

  function StatusCounts(tasks: seq<TaskRow>): map<string, nat> {
    map t | t in tasks :: t.status := CountOf(tasks, t.status)
  }

  function Summarize(k: KlusterRow, tasks: seq<TaskRow>, limit: nat): KlusterSummary {
    KlusterSummary(k.id, |tasks|, StatusCounts(tasks), if limit < |tasks| then tasks[..limit] else tasks)
  }

  ghost function Summaries(q: Search, missionHit: bool, ks: seq<KlusterRow>, tasks: seq<TaskRow>,
                           limit: nat): seq<KlusterSummary>
  {
    if ks == [] then []
    else
      var k := ks[|ks| - 1];
      var shown := Display(q, missionHit, k, TasksOf(tasks, k.id));
      Summaries(q, missionHit, ks[..|ks| - 1], tasks, limit)
        + if shown.Some? then [Summarize(k, shown.value, limit)] else []
  }

  function TaskTotal(ks: seq<KlusterSummary>): nat {
    if ks == [] then 0 else TaskTotal(ks[..|ks| - 1]) + ks[|ks| - 1].taskCount
  }

  ghost function MissionKlusters(q: Search, m: MissionRow, klusters: seq<KlusterRow>, tasks: seq<TaskRow>, limit: nat):
    seq<KlusterSummary>
  {
    Summaries(q, q.Hits(m.Texts()), KlustersOf(klusters, Some(m.id)), tasks, limit)
  }

  function Mission(m: MissionRow, ks: seq<KlusterSummary>): MissionSummary {
    MissionSummary(m.id, |ks|, TaskTotal(ks), ks)
  }

  ghost function Missions(q: Search, ms: seq<MissionRow>, klusters: seq<KlusterRow>, tasks: seq<TaskRow>, limit: nat):
    seq<MissionSummary>
  {
    if ms == [] then []
    else
      var m := ms[|ms| - 1];
      var ks := MissionKlusters(q, m, klusters, tasks, limit);
      Missions(q, ms[..|ms| - 1], klusters, tasks, limit)
        + if q.Hits(m.Texts()) || ks != [] then [Mission(m, ks)] else []
  }

  /** Klusters of no mission; the empty text shows them all. */
  ghost function Unassigned(q: Search, klusters: seq<KlusterRow>, tasks: seq<TaskRow>,
                            limit: nat): seq<KlusterSummary>
  {
    Summaries(q, false, KlustersOf(klusters, None), tasks, limit)
  }

  function KlusterTotal(ms: seq<MissionSummary>): nat {
    if ms == [] then 0 else KlusterTotal(ms[..|ms| - 1]) + ms[|ms| - 1].klusterCount
  }

  function MissionTaskTotal(ms: seq<MissionSummary>): nat {
    if ms == [] then 0 else MissionTaskTotal(ms[..|ms| - 1]) + ms[|ms| - 1].taskCount
  }

  /** Rows of a table have distinct primary keys. */
  ghost predicate DistinctKeys(ms: seq<MissionRow>, ks: seq<KlusterRow>) {
    && (forall i, j | 0 <= i < j < |ms| :: ms[i].id != ms[j].id)
    && (forall i, j | 0 <= i < j < |ks| :: ks[i].id != ks[j].id)
  }

  // ----------------------------------------------------------------- the builder

  /** The index gives for every kluster its tasks, with none for a kluster not in it. */
  ghost predicate TaskIndex(byKluster: map<string, seq<TaskRow>>, tasks: seq<TaskRow>) {
    forall k :: (if k in byKluster then byKluster[k] else []) == TasksOf(tasks, k)
  }

  lemma TaskIndexMore(byKluster: map<string, seq<TaskRow>>, tasks: seq<TaskRow>, t: TaskRow)
    requires TaskIndex(byKluster, tasks)
    ensures TaskIndex(
      byKluster[t.kluster := (if t.kluster in byKluster then byKluster[t.kluster] else []) + [t]], tasks + [t])
  {
    assert (tasks + [t])[..|tasks|] == tasks;
  }

  method GroupTasks(tasks: seq<TaskRow>) returns (byKluster: map<string, seq<TaskRow>>)
    ensures TaskIndex(byKluster, tasks)
  {
    hide TasksOf;
    byKluster := map[];
    assert TaskIndex(byKluster, []) by {
      NoTasks();
    }
    for i := 0 to |tasks|
      invariant TaskIndex(byKluster, tasks[..i])
    {
      var t := tasks[i];
      TaskIndexMore(byKluster, tasks[..i], t);
      assert tasks[..i + 1] == tasks[..i] + [t];
      byKluster := byKluster[t.kluster := (if t.kluster in byKluster then byKluster[t.kluster] else []) + [t]];
    }
    assert tasks[..|tasks|] == tasks;
  }

  lemma NoTasks()
    ensures forall k :: TasksOf([], k) == []
  {
  }

  ghost predicate KlusterIndex(byMission: map<Option<string>, seq<KlusterRow>>, klusters: seq<KlusterRow>) {
    forall m :: (if m in byMission then byMission[m] else []) == KlustersOf(klusters, m)
  }

  lemma KlusterIndexMore(byMission: map<Option<string>, seq<KlusterRow>>, klusters: seq<KlusterRow>, k: KlusterRow)
    requires KlusterIndex(byMission, klusters)
    ensures KlusterIndex(
      byMission[k.mission := (if k.mission in byMission then byMission[k.mission] else []) + [k]], klusters + [k])
  {
    assert (klusters + [k])[..|klusters|] == klusters;
  }

  method GroupKlusters(klusters: seq<KlusterRow>) returns (byMission: map<Option<string>, seq<KlusterRow>>)
    ensures KlusterIndex(byMission, klusters)
  {
    hide KlustersOf;
    byMission := map[];
    assert KlusterIndex(byMission, []) by {
      NoKlusters();
    }
    for i := 0 to |klusters|
      invariant KlusterIndex(byMission, klusters[..i])
    {
      var k := klusters[i];
      KlusterIndexMore(byMission, klusters[..i], k);
      assert klusters[..i + 1] == klusters[..i] + [k];
      byMission := byMission[k.mission := (if k.mission in byMission then byMission[k.mission] else []) + [k]];
    }
    assert klusters[..|klusters|] == klusters;
  }

  lemma NoKlusters()
    ensures forall m :: KlustersOf([], m) == []
  {
  }

  /** _build_cluster_summary: one pass of counters. */
  method BuildClusterSummary(k: KlusterRow, tasks: seq<TaskRow>, limit: nat) returns (s: KlusterSummary)
    ensures s == Summarize(k, tasks, limit)
  {
    var counts: map<string, nat> := map[];
    for i := 0 to |tasks|
      invariant forall s :: s in counts <==> exists t :: t in tasks[..i] && t.status == s
      invariant forall s :: (if s in counts then counts[s] else 0) == CountOf(tasks[..i], s)
    {
      var t := tasks[i];
      assert tasks[..i + 1] == tasks[..i] + [t];
      counts := counts[t.status := (if t.status in counts then counts[t.status] else 0) + 1];
    }
    assert tasks[..|tasks|] == tasks;
    assert counts == StatusCounts(tasks);
    s := KlusterSummary(k.id, |tasks|, counts, if limit < |tasks| then tasks[..limit] else tasks);
  }

  function Ids(ks: seq<KlusterSummary>): set<string> {
    set s | s in ks :: s.id
  }

  function AllIds(ms: seq<MissionSummary>): set<string> {
    set m, s | m in ms && s in m.klusters :: s.id
  }

  method FilterTasks(q: Search, all: seq<TaskRow>) returns (matching: seq<TaskRow>)
    ensures matching == Matching(q, all)
  {
    matching := [];
    for i := 0 to |all|
      invariant matching == Matching(q, all[..i])
    {
      assert all[..i + 1][..i] == all[..i];
      var hit := q.MatchesQuery(all[i].Texts());
      if hit {
        matching := matching + [all[i]];
      }
    }
    assert all[..|all|] == all;
  }

  /** One kluster: nothing, or its summary. */
  method SummarizeOne(q: Search, missionHit: bool, k: KlusterRow, all: seq<TaskRow>, limit: nat)
    returns (shown: Option<KlusterSummary>)
    ensures var d := Display(q, missionHit, k, all);
      shown == if d.Some? then Some(Summarize(k, d.value, limit)) else None
  {
    var hit := q.MatchesQuery(k.Texts());
    var matching := FilterTasks(q, all);
    if !missionHit && !hit && matching == [] {
      return None;
    }
    var summary := BuildClusterSummary(k, if missionHit || hit then all else matching, limit);
    return Some(summary);
  }

  /** The loop over the klusters of one mission, or over those of none. */
  method SummarizeKlusters(q: Search, missionHit: bool, ks: seq<KlusterRow>, ghost tasks: seq<TaskRow>,
                           byKluster: map<string, seq<TaskRow>>, limit: nat, seen: set<string>)
    returns (out: seq<KlusterSummary>, included: set<string>)
    requires TaskIndex(byKluster, tasks)
    ensures out == Summaries(q, missionHit, ks, tasks, limit) && included == seen + Ids(out)
  {
    hide Display, Summarize, TasksOf, Ids;
    out, included := [], seen;
    assert Ids([]) == {} by {
      NoIds();
    }
    for i := 0 to |ks|
      invariant out == Summaries(q, missionHit, ks[..i], tasks, limit)
      invariant included == seen + Ids(out)
    {
      assert ks[..i + 1][..i] == ks[..i];
      var k := ks[i];
      var shown := SummarizeOne(q, missionHit, k, if k.id in byKluster then byKluster[k.id] else [], limit);
      if shown.Some? {
        AddId(out, shown.value);
        SummaryId(k, limit, q, missionHit, TasksOf(tasks, k.id));
        out := out + [shown.value];
        included := included + {k.id};
      }
    }
    assert ks[..|ks|] == ks;
  }

  lemma NoIds()
    ensures Ids([]) == {}
  {
  }

  lemma SummaryId(k: KlusterRow, limit: nat, q: Search, hit: bool, all: seq<TaskRow>)
    ensures var d := Display(q, hit, k, all); d.Some? ==> Summarize(k, d.value, limit).id == k.id
  {
  }

  lemma AddId(out: seq<KlusterSummary>, s: KlusterSummary)
    ensures Ids(out + [s]) == Ids(out) + {s.id}
  {
    assert forall x :: x in out + [s] <==> x in out || x == s;
  }

  lemma AddMissionIds(ms: seq<MissionSummary>, m: MissionSummary)
    ensures AllIds(ms + [m]) == AllIds(ms) + Ids(m.klusters)
  {
    assert forall x :: x in ms + [m] <==> x in ms || x == m;
  }

  method TaskTotalOf(ks: seq<KlusterSummary>) returns (total: nat)
    ensures total == TaskTotal(ks)
  {
    total := 0;
    for i := 0 to |ks|
      invariant total == TaskTotal(ks[..i])
    {
      assert ks[..i + 1][..i] == ks[..i];
      total := total + ks[i].taskCount;
    }
    assert ks[..|ks|] == ks;
  }

  method MissionTaskTotalOf(ms: seq<MissionSummary>) returns (total: nat)
    ensures total == MissionTaskTotal(ms)
  {
    total := 0;
    for i := 0 to |ms|
      invariant total == MissionTaskTotal(ms[..i])
    {
      assert ms[..i + 1][..i] == ms[..i];
      total := total + ms[i].taskCount;
    }
    assert ms[..|ms|] == ms;
  }

  /** The loop over the missions. */
  method SummarizeMissions(q: Search, ms: seq<MissionRow>, ghost klusters: seq<KlusterRow>, ghost tasks: seq<TaskRow>,
                           byMission: map<Option<string>, seq<KlusterRow>>, byKluster: map<string, seq<TaskRow>>,
                           limit: nat)
    returns (missions: seq<MissionSummary>, included: set<string>)
    requires TaskIndex(byKluster, tasks)
    requires KlusterIndex(byMission, klusters)
    ensures missions == Missions(q, ms, klusters, tasks, limit) && included == AllIds(missions)
  {
    hide Summaries, AllIds, Ids, TasksOf, KlustersOf, Search.Hits;
    missions, included := [], {};
    NoAllIds();
    for i := 0 to |ms|
      invariant missions == Missions(q, ms[..i], klusters, tasks, limit)
      invariant included == AllIds(missions)
    {
      var m := ms[i];
      assert ms[..i + 1][..i] == ms[..i];
      var hit := q.MatchesQuery(m.Texts());
      var own := if Some(m.id) in byMission then byMission[Some(m.id)] else [];
      var ks, more := SummarizeKlusters(q, hit, own, tasks, byKluster, limit, included);
      if hit || ks != [] {
        var total := TaskTotalOf(ks);
        AddMissionIds(missions, MissionSummary(m.id, |ks|, total, ks));
        missions := missions + [MissionSummary(m.id, |ks|, total, ks)];
      } else {
        NoIds();
      }
      included := more;
    }
    assert ms[..|ms|] == ms;
  }

  /** get_explorer_tree: the indexed builder gives the tree that plain filtering
      describes; its totals are the sums over missions and unassigned klusters, and
      count each kluster row and each task row that stands in the tree once. */
  method BuildTree(q: Search, ms: seq<MissionRow>, klusters: seq<KlusterRow>, tasks: seq<TaskRow>, limit: nat)
    returns (tree: Tree)
    requires DistinctKeys(ms, klusters)
    ensures tree.missions == Missions(q, ms, klusters, tasks, limit)
    ensures tree.unassigned == Unassigned(q, klusters, tasks, limit)
    ensures tree.missionCount == |tree.missions|
    ensures tree.klusterCount == KlusterTotal(tree.missions) + |tree.unassigned|
    ensures tree.taskCount == MissionTaskTotal(tree.missions) + TaskTotal(tree.unassigned)
    ensures tree.klusterCount == |StandingKlusters(q, ms, klusters, tasks)|
    ensures tree.taskCount == |StandingTasks(q, ms, klusters, tasks)|
  {
    hide Missions, Summaries, AllIds, Ids, StandingKlusters, StandingTasks, Search.Hits;
    var byKluster := GroupTasks(tasks);
    var byMission := GroupKlusters(klusters);
    var missions, included := SummarizeMissions(q, ms, klusters, tasks, byMission, byKluster, limit);
    var none := if None in byMission then byMission[None] else [];
    var unassigned, all := SummarizeKlusters(q, q.needle == "", none, tasks, byKluster, limit, included);
    SummariesSame(q, none, tasks, limit);
    KlustersCountedOnce(q, ms, klusters, tasks, limit);
    TasksCountedOnce(q, ms, klusters, tasks, limit);
    var total := MissionTaskTotalOf(missions);
    var rest := TaskTotalOf(unassigned);
    tree := Tree(|missions|, |all|, total + rest, missions, unassigned);
  }

  /** With an empty text a kluster of no mission is shown whole either way. */
  lemma {:induction false} SummariesSame(q: Search, ks: seq<KlusterRow>, tasks: seq<TaskRow>, limit: nat)
    ensures Summaries(q, q.needle == "", ks, tasks, limit) == Summaries(q, false, ks, tasks, limit)
  {
    if ks != [] {
      SummariesSame(q, ks[..|ks| - 1], tasks, limit);
    }
  }

  // ------------------------------------------------------------- counts are sums

  /** A kluster id occurs in a kluster list at a given mission. */
  ghost predicate Listed(klusters: seq<KlusterRow>, id: string, mission: Option<string>) {
    exists k :: k in klusters && k.id == id && k.mission == mission
  }

  lemma {:induction false} KlustersOfExact(klusters: seq<KlusterRow>, mission: Option<string>)
    ensures forall k :: k in KlustersOf(klusters, mission) <==> k in klusters && k.mission == mission
  {
    if klusters != [] {
      KlustersOfExact(klusters[..|klusters| - 1], mission);
      assert klusters == klusters[..|klusters| - 1] + [klusters[|klusters| - 1]];
    }
  }

  ghost predicate DistinctKlusters(ks: seq<KlusterRow>) {
    forall i, j | 0 <= i < j < |ks| :: ks[i].id != ks[j].id
  }

  lemma {:induction false} KlustersOfDistinct(klusters: seq<KlusterRow>, mission: Option<string>)
    requires DistinctKlusters(klusters)
    ensures DistinctKlusters(KlustersOf(klusters, mission))
  {
    if klusters != [] {
      var n := |klusters| - 1;
      KlustersOfDistinct(klusters[..n], mission);
      KlustersOfExact(klusters[..n], mission);
      var front := KlustersOf(klusters[..n], mission);
      forall i | 0 <= i < |front| ensures front[i].id != klusters[n].id {
        assert front[i] in klusters[..n];
      }
    }
  }

  /** Each kluster is summarised at most once, under its own id. */
  lemma {:induction false} SummariesDistinct(q: Search, hit: bool, ks: seq<KlusterRow>, tasks: seq<TaskRow>, limit: nat)
    requires DistinctKlusters(ks)
    ensures |Ids(Summaries(q, hit, ks, tasks, limit))| == |Summaries(q, hit, ks, tasks, limit)|
    ensures forall id | id in Ids(Summaries(q, hit, ks, tasks, limit)) :: HasId(ks, id)
  {
    hide Display, Summarize, TasksOf, Ids;
    if ks != [] {
      var n := |ks| - 1;
      SummariesDistinct(q, hit, ks[..n], tasks, limit);
      var k, front := ks[n], Summaries(q, hit, ks[..n], tasks, limit);
      var shown := Display(q, hit, k, TasksOf(tasks, k.id));
      HasIdMore(ks);
      if shown.Some? {
        SummaryId(k, limit, q, hit, TasksOf(tasks, k.id));
        AddId(front, Summarize(k, shown.value, limit));
      } else {
        assert Summaries(q, hit, ks, tasks, limit) == front;
      }
    } else {
      NoIds();
    }
  }

  ghost predicate HasId(ks: seq<KlusterRow>, id: string) {
    exists k :: k in ks && k.id == id
  }

  lemma HasIdMore(ks: seq<KlusterRow>)
    requires ks != [] && DistinctKlusters(ks)
    ensures HasId(ks, ks[|ks| - 1].id) && !HasId(ks[..|ks| - 1], ks[|ks| - 1].id)
    ensures forall id | HasId(ks[..|ks| - 1], id) :: HasId(ks, id)
  {
    var n := |ks| - 1;
    assert forall k | k in ks[..n] :: k in ks;
    forall k | k in ks[..n] ensures k.id != ks[n].id {
      var i :| 0 <= i < n && ks[..n][i] == k;
    }
  }

  lemma ListedOnce(klusters: seq<KlusterRow>, id: string, a: Option<string>, b: Option<string>)
    requires DistinctKlusters(klusters) && Listed(klusters, id, a) && Listed(klusters, id, b)
    ensures a == b
  {
    var j :| j in klusters && j.id == id && j.mission == a;
    var k :| k in klusters && k.id == id && k.mission == b;
    var x: nat :| x < |klusters| && klusters[x] == j;
    var y: nat :| y < |klusters| && klusters[y] == k;
  }

  lemma SummariesListed(q: Search, hit: bool, mission: Option<string>, klusters: seq<KlusterRow>,
                        tasks: seq<TaskRow>, limit: nat)
    requires DistinctKlusters(klusters)
    ensures var out := Summaries(q, hit, KlustersOf(klusters, mission), tasks, limit);
      |Ids(out)| == |out| && forall id | id in Ids(out) :: Listed(klusters, id, mission)
  {
    var own := KlustersOf(klusters, mission);
    KlustersOfDistinct(klusters, mission);
    KlustersOfExact(klusters, mission);
    SummariesDistinct(q, hit, own, tasks, limit);
  }

  ghost predicate Disjoint(a: set<string>, b: set<string>) {
    forall x | x in a :: x !in b
  }

  lemma DisjointSize(a: set<string>, b: set<string>)
    requires Disjoint(a, b)
    ensures |a + b| == |a| + |b|
  {
    assert a * b == {};
  }

  ghost predicate ListedUnder(ms: seq<MissionRow>, klusters: seq<KlusterRow>, id: string) {
    exists m :: m in ms && Listed(klusters, id, Some(m.id))
  }

  lemma {:induction false} MissionsListed(q: Search, ms: seq<MissionRow>, klusters: seq<KlusterRow>,
                                          tasks: seq<TaskRow>, limit: nat)
    requires DistinctKeys(ms, klusters)
    ensures var out := Missions(q, ms, klusters, tasks, limit);
      && |AllIds(out)| == KlusterTotal(out)
      && forall id | id in AllIds(out) :: ListedUnder(ms, klusters, id)
  {
    hide AllIds, Ids, ListedUnder, MissionKlusters;
    if ms != [] {
      var n := |ms| - 1;
      MissionsListed(q, ms[..n], klusters, tasks, limit);
      var front, ks := Missions(q, ms[..n], klusters, tasks, limit), MissionKlusters(q, ms[n], klusters, tasks, limit);
      OneMoreMission(q, ms, klusters, tasks, limit, AllIds(front));
      AddMissionIds(front, Mission(ms[n], ks));
      if q.Hits(ms[n].Texts()) || ks != [] {
        assert (front + [Mission(ms[n], ks)])[..|front|] == front;
        DisjointSize(AllIds(front), Ids(ks));
      } else {
        assert Missions(q, ms, klusters, tasks, limit) == front;
      }
    } else {
      NoAllIds();
    }
  }

  lemma NoAllIds()
    ensures AllIds([]) == {}
  {
  }

  lemma OneMoreMission(q: Search, ms: seq<MissionRow>, klusters: seq<KlusterRow>, tasks: seq<TaskRow>,
                       limit: nat, before: set<string>)
    requires DistinctKeys(ms, klusters) && ms != []
    requires forall id | id in before :: ListedUnder(ms[..|ms| - 1], klusters, id)
    ensures var ks := MissionKlusters(q, ms[|ms| - 1], klusters, tasks, limit);
      && |Ids(ks)| == |ks| && Disjoint(before, Ids(ks))
      && forall id | id in before + Ids(ks) :: ListedUnder(ms, klusters, id)
  {
    hide Summaries, Ids;
    var m := ms[|ms| - 1];
    SummariesListed(q, q.Hits(m.Texts()), Some(m.id), klusters, tasks, limit);
    FrontMembers(ms);
    forall id | id in before
      ensures id !in Ids(MissionKlusters(q, m, klusters, tasks, limit)) && ListedUnder(ms, klusters, id)
    {
      var a :| a in ms[..|ms| - 1] && Listed(klusters, id, Some(a.id));
      if id in Ids(MissionKlusters(q, m, klusters, tasks, limit)) {
        ListedOnce(klusters, id, Some(a.id), Some(m.id));
      }
    }
  }

  lemma FrontMembers(ms: seq<MissionRow>)
    requires ms != []
    ensures forall m | m in ms[..|ms| - 1] :: m in ms
    ensures ms[|ms| - 1] in ms
  {
  }

  /** Every kluster shown is counted once. */
  lemma IncludedCount(q: Search, ms: seq<MissionRow>, klusters: seq<KlusterRow>, tasks: seq<TaskRow>, limit: nat)
    requires DistinctKeys(ms, klusters)
    ensures var out, rest := Missions(q, ms, klusters, tasks, limit), Unassigned(q, klusters, tasks, limit);
      |AllIds(out) + Ids(rest)| == KlusterTotal(out) + |rest|
  {
    var out, rest := Missions(q, ms, klusters, tasks, limit), Unassigned(q, klusters, tasks, limit);
    MissionsListed(q, ms, klusters, tasks, limit);
    SummariesListed(q, false, None, klusters, tasks, limit);
    forall id | id in AllIds(out) ensures id !in Ids(rest) {
      assert ListedUnder(ms, klusters, id);
      var m :| m in ms && Listed(klusters, id, Some(m.id));
      if id in Ids(rest) {
        ListedOnce(klusters, id, Some(m.id), None);
      }
    }
    DisjointSize(AllIds(out), Ids(rest));
  }

  /** The sum over the entries of a status count. */
  ghost function SumCounts(m: map<string, nat>): nat
    decreases |m|
  {
    if m == map[] then 0
    else
      var k :| k in m;
      m[k] + SumCounts(m - {k})
  }

  ghost function Statuses(tasks: seq<TaskRow>): multiset<string> {
    if tasks == [] then multiset{} else Statuses(tasks[..|tasks| - 1]) + multiset{tasks[|tasks| - 1].status}
  }

  lemma {:induction false} StatusesCount(tasks: seq<TaskRow>)
    ensures |Statuses(tasks)| == |tasks|
    ensures forall s :: Statuses(tasks)[s] == CountOf(tasks, s)
    ensures forall s :: s in Statuses(tasks) <==> exists t :: t in tasks && t.status == s
  {
    if tasks != [] {
      var n := |tasks| - 1;
      StatusesCount(tasks[..n]);
      assert tasks == tasks[..n] + [tasks[n]];
    }
  }

  lemma {:induction false} SumIsSize(m: map<string, nat>, all: multiset<string>)
    requires forall s :: s in m <==> s in all
    requires forall s | s in m :: m[s] == all[s]
    ensures SumCounts(m) == |all|
    decreases |m|
  {
    if m == map[] {
      assert all == multiset{};
    } else {
      var k :| k in m && SumCounts(m) == m[k] + SumCounts(m - {k});
      var less := all[k := 0];
      assert all == less[k := all[k]];
      SumIsSize(m - {k}, less);
    }
  }

  /** The status counts of a summary add up to its task count. */
  lemma CountsAddUp(k: KlusterRow, tasks: seq<TaskRow>, limit: nat)
    ensures var s := Summarize(k, tasks, limit); SumCounts(s.statusCounts) == s.taskCount
  {
    StatusesCount(tasks);
    SumIsSize(StatusCounts(tasks), Statuses(tasks));
  }

  // ------------------------------------------------------- narrowing by a search

  lemma {:induction false} MatchingExact(q: Search, tasks: seq<TaskRow>)
    ensures forall t :: t in Matching(q, tasks) <==> t in tasks && q.Hits(t.Texts())
    ensures |Matching(q, tasks)| <= |tasks|
  {
    if tasks != [] {
      var n := |tasks| - 1;
      MatchingExact(q, tasks[..n]);
      assert tasks == tasks[..n] + [tasks[n]];
    }
  }

  /** A kluster is shown exactly when its mission, itself or one of its tasks
      matches, and then with all its tasks or with the matching ones. */
  lemma ShownIff(q: Search, hit: bool, k: KlusterRow, all: seq<TaskRow>)
    ensures Display(q, hit, k, all).Some? <==> hit || q.Hits(k.Texts()) || exists t :: t in all && q.Hits(t.Texts())
    ensures Display(q, hit, k, all).Some? ==>
      forall t :: t in Display(q, hit, k, all).value <==> t in all && (hit || q.Hits(k.Texts()) || q.Hits(t.Texts()))
  {
    MatchingExact(q, all);
    if Matching(q, all) != [] {
      assert Matching(q, all)[0] in Matching(q, all);
    }
  }

  /** The summaries are exactly those of the shown klusters. */
  lemma {:induction false} SummariesExact(q: Search, hit: bool, ks: seq<KlusterRow>, tasks: seq<TaskRow>, limit: nat)
    ensures forall s :: s in Summaries(q, hit, ks, tasks, limit) <==>
      exists k :: k in ks && IsShown(q, hit, k, tasks, limit, s)
  {
    if ks != [] {
      var n := |ks| - 1;
      SummariesExact(q, hit, ks[..n], tasks, limit);
      assert ks == ks[..n] + [ks[n]];
      forall s
        ensures s in Summaries(q, hit, ks, tasks, limit) <==> exists k :: k in ks && IsShown(q, hit, k, tasks, limit, s)
      {
        assert s in Summaries(q, hit, ks, tasks, limit) <==>
          s in Summaries(q, hit, ks[..n], tasks, limit) || IsShown(q, hit, ks[n], tasks, limit, s);
      }
    }
  }

  ghost predicate IsShown(q: Search, hit: bool, k: KlusterRow, tasks: seq<TaskRow>, limit: nat, s: KlusterSummary) {
    var shown := Display(q, hit, k, TasksOf(tasks, k.id));
    shown.Some? && s == Summarize(k, shown.value, limit)
  }

  ghost predicate IsMission(q: Search, m: MissionRow, klusters: seq<KlusterRow>, tasks: seq<TaskRow>,
                            limit: nat, s: MissionSummary)
  {
    var ks := MissionKlusters(q, m, klusters, tasks, limit);
    (q.Hits(m.Texts()) || ks != []) && s == Mission(m, ks)
  }

  lemma {:induction false} MissionsExact(q: Search, ms: seq<MissionRow>, klusters: seq<KlusterRow>,
                                         tasks: seq<TaskRow>, limit: nat)
    ensures forall s :: s in Missions(q, ms, klusters, tasks, limit) <==>
      exists m :: m in ms && IsMission(q, m, klusters, tasks, limit, s)
  {
    hide MissionKlusters;
    if ms != [] {
      var n := |ms| - 1;
      MissionsExact(q, ms[..n], klusters, tasks, limit);
      assert ms == ms[..n] + [ms[n]];
      forall s
        ensures s in Missions(q, ms, klusters, tasks, limit) <==>
          exists m :: m in ms && IsMission(q, m, klusters, tasks, limit, s)
      {
        assert s in Missions(q, ms, klusters, tasks, limit) <==>
          s in Missions(q, ms[..n], klusters, tasks, limit) || IsMission(q, ms[n], klusters, tasks, limit, s);
      }
    }
  }

  ghost predicate TaskHit(q: Search, tasks: seq<TaskRow>, kluster: string) {
    exists t :: t in tasks && t.kluster == kluster && q.Hits(t.Texts())
  }

  lemma {:induction false} TasksOfExact(tasks: seq<TaskRow>, kluster: string)
    ensures forall t :: t in TasksOf(tasks, kluster) <==> t in tasks && t.kluster == kluster
  {
    if tasks != [] {
      TasksOfExact(tasks[..|tasks| - 1], kluster);
      assert tasks == tasks[..|tasks| - 1] + [tasks[|tasks| - 1]];
    }
  }

  /** Among the klusters of one mission, or of none, an id is summarised exactly
      when its mission, itself or one of its tasks matches. */
  lemma IdShownIff(q: Search, hit: bool, mission: Option<string>, klusters: seq<KlusterRow>,
                   tasks: seq<TaskRow>, limit: nat, k: KlusterRow)
    requires DistinctKlusters(klusters) && k in klusters && k.mission == mission
    ensures k.id in Ids(Summaries(q, hit, KlustersOf(klusters, mission), tasks, limit)) <==>
      hit || q.Hits(k.Texts()) || TaskHit(q, tasks, k.id)
  {
    var own := KlustersOf(klusters, mission);
    KlustersOfExact(klusters, mission);
    SummariesExact(q, hit, own, tasks, limit);
    TasksOfExact(tasks, k.id);
    ShownIff(q, hit, k, TasksOf(tasks, k.id));
    var d := Display(q, hit, k, TasksOf(tasks, k.id));
    if d.Some? {
      assert IsShown(q, hit, k, tasks, limit, Summarize(k, d.value, limit));
    }
    forall j | j in own && j.id == k.id ensures j == k {
      SameRow(klusters, j, k);
    }
  }

  lemma SameRow(klusters: seq<KlusterRow>, j: KlusterRow, k: KlusterRow)
    requires DistinctKlusters(klusters) && j in klusters && k in klusters && j.id == k.id
    ensures j == k
  {
    var x: nat :| x < |klusters| && klusters[x] == j;
    var y: nat :| y < |klusters| && klusters[y] == k;
  }

  /** The tree for a search text keeps a mission's kluster if and only if the
      mission, the kluster or one of its tasks matches. */
  lemma KeptIff(q: Search, ms: seq<MissionRow>, klusters: seq<KlusterRow>, tasks: seq<TaskRow>, limit: nat,
                m: MissionRow, k: KlusterRow)
    requires DistinctKeys(ms, klusters) && m in ms && k in klusters && k.mission == Some(m.id)
    ensures k.id in AllIds(Missions(q, ms, klusters, tasks, limit)) <==>
      q.Hits(m.Texts()) || q.Hits(k.Texts()) || TaskHit(q, tasks, k.id)
    ensures k.id !in Ids(Unassigned(q, klusters, tasks, limit))
  {
    var own := MissionKlusters(q, m, klusters, tasks, limit);
    IdShownIff(q, q.Hits(m.Texts()), Some(m.id), klusters, tasks, limit, k);
    MissionsExact(q, ms, klusters, tasks, limit);
    if k.id in Ids(own) {
      assert IsMission(q, m, klusters, tasks, limit, Mission(m, own));
    }
    NotElsewhere(q, ms, klusters, tasks, limit, m, k);
    SummariesListed(q, false, None, klusters, tasks, limit);
    assert Listed(klusters, k.id, k.mission);
    if k.id in Ids(Unassigned(q, klusters, tasks, limit)) {
      ListedOnce(klusters, k.id, Some(m.id), None);
    }
  }

  lemma NotElsewhere(q: Search, ms: seq<MissionRow>, klusters: seq<KlusterRow>, tasks: seq<TaskRow>,
                     limit: nat, m: MissionRow, k: KlusterRow)
    requires DistinctKeys(ms, klusters) && m in ms && k in klusters && k.mission == Some(m.id)
    ensures forall a | a in ms && k.id in Ids(MissionKlusters(q, a, klusters, tasks, limit)) :: a == m
  {
    assert Listed(klusters, k.id, Some(m.id));
    forall a | a in ms && k.id in Ids(MissionKlusters(q, a, klusters, tasks, limit)) ensures a == m {
      SummariesListed(q, q.Hits(a.Texts()), Some(a.id), klusters, tasks, limit);
      ListedOnce(klusters, k.id, Some(a.id), Some(m.id));
      var x: nat :| x < |ms| && ms[x] == a;
      var y: nat :| y < |ms| && ms[y] == m;
    }
  }

  /** The same kluster with no more tasks, of any status. */
  ghost predicate Narrower(s: KlusterSummary, t: KlusterSummary) {
    && s.id == t.id && s.taskCount <= t.taskCount
    && forall x | x in s.statusCounts :: x in t.statusCounts && s.statusCounts[x] <= t.statusCounts[x]
  }

  /** Each kluster of one list is in the other, with at least those tasks. */
  ghost predicate Within(a: seq<KlusterSummary>, b: seq<KlusterSummary>) {
    forall s | s in a :: exists t :: t in b && Narrower(s, t)
  }

  lemma {:induction false} MatchingCounts(q: Search, tasks: seq<TaskRow>)
    ensures forall x :: CountOf(Matching(q, tasks), x) <= CountOf(tasks, x)
  {
    hide Search.Hits;
    if tasks != [] {
      var n := |tasks| - 1;
      var front := Matching(q, tasks[..n]);
      MatchingCounts(q, tasks[..n]);
      assert (front + [tasks[n]])[..|front|] == front;
      assert Matching(q, tasks) == front || Matching(q, tasks) == front + [tasks[n]];
    }
  }

  lemma ShownIsNarrower(q: Search, hit: bool, k: KlusterRow, all: seq<TaskRow>, limit: nat)
    requires Display(q, hit, k, all).Some?
    ensures Narrower(Summarize(k, Display(q, hit, k, all).value, limit), Summarize(k, all, limit))
  {
    MatchingExact(q, all);
    MatchingCounts(q, all);
  }

  lemma SummariesWithin(q: Search, hit: bool, ks: seq<KlusterRow>, tasks: seq<TaskRow>, limit: nat)
    ensures Within(Summaries(q, hit, ks, tasks, limit), Summaries(q.(needle := ""), true, ks, tasks, limit))
  {
    hide Summarize;
    var q0 := q.(needle := "");
    SummariesExact(q, hit, ks, tasks, limit);
    SummariesExact(q0, true, ks, tasks, limit);
    forall s | s in Summaries(q, hit, ks, tasks, limit)
      ensures exists t :: t in Summaries(q0, true, ks, tasks, limit) && Narrower(s, t)
    {
      var k :| k in ks && IsShown(q, hit, k, tasks, limit, s);
      var all := TasksOf(tasks, k.id);
      ShownIsNarrower(q, hit, k, all, limit);
      var t := Summarize(k, all, limit);
      assert IsShown(q0, true, k, tasks, limit, t);
    }
  }

  /** The klusters of no mission narrow in the same way. */
  lemma UnassignedWithin(q: Search, klusters: seq<KlusterRow>, tasks: seq<TaskRow>, limit: nat)
    ensures Within(Unassigned(q, klusters, tasks, limit), Unassigned(q.(needle := ""), klusters, tasks, limit))
  {
    var none := KlustersOf(klusters, None);
    SummariesWithin(q, false, none, tasks, limit);
    SummariesSame(q.(needle := ""), none, tasks, limit);
  }

  /** The tree for a search text is a sub-tree of the one for no text: every
      mission is there, and every kluster under it, with no more tasks of any
      status. */
  lemma SubTree(q: Search, ms: seq<MissionRow>, klusters: seq<KlusterRow>, tasks: seq<TaskRow>, limit: nat,
                s: MissionSummary)
    returns (whole: MissionSummary)
    requires s in Missions(q, ms, klusters, tasks, limit)
    ensures whole in Missions(q.(needle := ""), ms, klusters, tasks, limit)
    ensures whole.id == s.id && Within(s.klusters, whole.klusters)
  {
    var q0 := q.(needle := "");
    MissionsExact(q, ms, klusters, tasks, limit);
    MissionsExact(q0, ms, klusters, tasks, limit);
    var m :| m in ms && IsMission(q, m, klusters, tasks, limit, s);
    whole := Mission(m, MissionKlusters(q0, m, klusters, tasks, limit));
    assert IsMission(q0, m, klusters, tasks, limit, whole);
    SummariesWithin(q, q.Hits(m.Texts()), KlustersOf(klusters, Some(m.id)), tasks, limit);
  }

  // ---------------------------------------------- order, and each row once

  /** `kept` is `all` at the increasing positions `at`. */
  ghost predicate Picks<T>(all: seq<T>, at: seq<nat>, kept: seq<T>) {
    && |at| == |kept|
    && (forall i | 0 <= i < |at| :: at[i] < |all| && kept[i] == all[at[i]])
    && forall i, j | 0 <= i < j < |at| :: at[i] < at[j]
  }

  lemma PicksMore<T>(all: seq<T>, at: seq<nat>, kept: seq<T>)
    requires all != [] && Picks(all[..|all| - 1], at, kept)
    ensures Picks(all, at, kept)
    ensures Picks(all, at + [|all| - 1], kept + [all[|all| - 1]])
    ensures forall j | j in at :: j < |all| - 1
  {
  }

  lemma PicksNone<T>()
    ensures Picks<T>([], [], [])
  {
  }

  /** A kluster's tasks are the rows that name it, in order and each once. */
  lemma {:induction false} TasksInOrder(tasks: seq<TaskRow>, kluster: string) returns (at: seq<nat>)
    ensures Picks(tasks, at, TasksOf(tasks, kluster))
    ensures forall j: nat | j < |tasks| :: j in at <==> tasks[j].kluster == kluster
  {
    hide Picks;
    at := [];
    if tasks != [] {
      var n := |tasks| - 1;
      at := TasksInOrder(tasks[..n], kluster);
      PicksMore(tasks, at, TasksOf(tasks[..n], kluster));
      assert forall j: nat | j < n :: tasks[..n][j] == tasks[j];
      if tasks[n].kluster == kluster {
        assert TasksOf(tasks, kluster) == TasksOf(tasks[..n], kluster) + [tasks[n]];
        at := at + [n];
      } else {
        assert TasksOf(tasks, kluster) == TasksOf(tasks[..n], kluster);
      }
    } else {
      PicksNone<TaskRow>();
    }
  }

  lemma {:induction false} KlustersInOrder(klusters: seq<KlusterRow>, mission: Option<string>) returns (at: seq<nat>)
    ensures Picks(klusters, at, KlustersOf(klusters, mission))
    ensures forall j: nat | j < |klusters| :: j in at <==> klusters[j].mission == mission
  {
    hide Picks;
    at := [];
    if klusters != [] {
      var n := |klusters| - 1;
      at := KlustersInOrder(klusters[..n], mission);
      PicksMore(klusters, at, KlustersOf(klusters[..n], mission));
      assert forall j: nat | j < n :: klusters[..n][j] == klusters[j];
      if klusters[n].mission == mission {
        assert KlustersOf(klusters, mission) == KlustersOf(klusters[..n], mission) + [klusters[n]];
        at := at + [n];
      } else {
        assert KlustersOf(klusters, mission) == KlustersOf(klusters[..n], mission);
      }
    } else {
      PicksNone<KlusterRow>();
    }
  }

  /** The matching tasks stay in order, each once. */
  lemma {:induction false} MatchingInOrder(q: Search, tasks: seq<TaskRow>) returns (at: seq<nat>)
    ensures Picks(tasks, at, Matching(q, tasks))
    ensures forall j: nat | j < |tasks| :: j in at <==> q.Hits(tasks[j].Texts())
  {
    hide Search.Hits, Picks;
    at := [];
    if tasks != [] {
      var n := |tasks| - 1;
      at := MatchingInOrder(q, tasks[..n]);
      PicksMore(tasks, at, Matching(q, tasks[..n]));
      assert forall j: nat | j < n :: tasks[..n][j] == tasks[j];
      if q.Hits(tasks[n].Texts()) {
        assert Matching(q, tasks) == Matching(q, tasks[..n]) + [tasks[n]];
        at := at + [n];
      } else {
        assert Matching(q, tasks) == Matching(q, tasks[..n]);
      }
    } else {
      PicksNone<TaskRow>();
    }
  }

  /** What a kluster is shown with stays in order, each task once: all its tasks when its
      mission or itself matches, and otherwise the matching ones. */
  lemma ShownInOrder(q: Search, hit: bool, k: KlusterRow, all: seq<TaskRow>) returns (at: seq<nat>)
    requires Display(q, hit, k, all).Some?
    ensures Picks(all, at, Display(q, hit, k, all).value)
    ensures forall j: nat | j < |all| :: j in at <==> hit || q.Hits(k.Texts()) || q.Hits(all[j].Texts())
  {
    hide Search.Hits;
    if hit || q.Hits(k.Texts()) {
      at := seq(|all|, i => i);
      forall j: nat | j < |all| ensures j in at {
        assert at[j] == j;
      }
    } else {
      at := MatchingInOrder(q, all);
    }
  }

  /** A mission's own totals are those of the klusters listed under it. */
  lemma MissionExact(q: Search, m: MissionRow, klusters: seq<KlusterRow>, tasks: seq<TaskRow>, limit: nat,
                     s: MissionSummary)
    requires DistinctKlusters(klusters) && IsMission(q, m, klusters, tasks, limit, s)
    ensures s.id == m.id && s.klusters == MissionKlusters(q, m, klusters, tasks, limit)
    ensures s.klusterCount == |s.klusters|
    ensures s.taskCount == |set j: nat | j < |tasks| && StandsUnder(q, m, klusters, tasks[j])|
  {
    hide StandsUnder, Search.Hits, MissionKlusters;
    MissionCount(q, m, klusters, tasks, limit);
  }

  ghost predicate Ascending(at: seq<nat>, top: nat) {
    && (forall i | 0 <= i < |at| :: at[i] < top)
    && forall i, j | 0 <= i < j < |at| :: at[i] < at[j]
  }

  lemma AscendingMore(at: seq<nat>, top: nat)
    requires Ascending(at, top)
    ensures Ascending(at, top + 1) && Ascending(at + [top], top + 1)
    ensures forall j: nat :: j in at + [top] <==> j in at || j == top
    ensures top !in at
  {
  }

  /** The missions shown stand in the order of their rows, each once, as the summary of
      its row: those that match or show a kluster. */
  lemma {:induction false} MissionsInOrder(q: Search, ms: seq<MissionRow>, klusters: seq<KlusterRow>,
                                           tasks: seq<TaskRow>, limit: nat) returns (at: seq<nat>)
    ensures var out := Missions(q, ms, klusters, tasks, limit);
      && |at| == |out| && Ascending(at, |ms|)
      && forall i | 0 <= i < |at| :: IsMission(q, ms[at[i]], klusters, tasks, limit, out[i])
    ensures forall j: nat | j < |ms| ::
      j in at <==> q.Hits(ms[j].Texts()) || MissionKlusters(q, ms[j], klusters, tasks, limit) != []
  {
    hide Search.Hits, MissionKlusters, Mission;
    at := [];
    if ms != [] {
      var n := |ms| - 1;
      at := MissionsInOrder(q, ms[..n], klusters, tasks, limit);
      assert forall j: nat | j < n :: ms[..n][j] == ms[j];
      AscendingMore(at, n);
      if q.Hits(ms[n].Texts()) || MissionKlusters(q, ms[n], klusters, tasks, limit) != [] {
        assert Missions(q, ms, klusters, tasks, limit) ==
          Missions(q, ms[..n], klusters, tasks, limit)
            + [Mission(ms[n], MissionKlusters(q, ms[n], klusters, tasks, limit))];
        at := at + [n];
      } else {
        assert Missions(q, ms, klusters, tasks, limit) == Missions(q, ms[..n], klusters, tasks, limit);
      }
    }
  }

  /** So do the klusters shown of one mission, or of none. */
  lemma {:induction false} SummariesInOrder(q: Search, hit: bool, ks: seq<KlusterRow>, tasks: seq<TaskRow>, limit: nat)
    returns (at: seq<nat>)
    ensures var out := Summaries(q, hit, ks, tasks, limit);
      && |at| == |out| && Ascending(at, |ks|)
      && forall i | 0 <= i < |at| :: IsShown(q, hit, ks[at[i]], tasks, limit, out[i])
    ensures forall j: nat | j < |ks| :: j in at <==> Display(q, hit, ks[j], TasksOf(tasks, ks[j].id)).Some?
  {
    hide Display, TasksOf, Summarize;
    at := [];
    if ks != [] {
      var n := |ks| - 1;
      at := SummariesInOrder(q, hit, ks[..n], tasks, limit);
      assert forall j: nat | j < n :: ks[..n][j] == ks[j];
      AscendingMore(at, n);
      if Display(q, hit, ks[n], TasksOf(tasks, ks[n].id)).Some? {
        var shown := Display(q, hit, ks[n], TasksOf(tasks, ks[n].id));
        assert Summaries(q, hit, ks, tasks, limit) ==
          Summaries(q, hit, ks[..n], tasks, limit) + [Summarize(ks[n], shown.value, limit)];
        at := at + [n];
      } else {
        assert Summaries(q, hit, ks, tasks, limit) == Summaries(q, hit, ks[..n], tasks, limit);
      }
    }
  }

  /** A summary, entry by entry: its task count, for each status that occurs the number
      of tasks in it, and the first `limit` tasks. */
  lemma SummaryExact(k: KlusterRow, tasks: seq<TaskRow>, limit: nat)
    ensures var s := Summarize(k, tasks, limit);
      && s.id == k.id && s.taskCount == |tasks|
      && (forall x :: x in s.statusCounts <==> exists t :: t in tasks && t.status == x)
      && (forall x | x in s.statusCounts :: s.statusCounts[x] == |InStatus(tasks, x)|)
      && |s.recent| == (if |tasks| < limit then |tasks| else limit) && s.recent <= tasks
  {
    forall x ensures CountOf(tasks, x) == |InStatus(tasks, x)| {
      CountOfExact(tasks, x);
    }
  }

  ghost function InStatus(tasks: seq<TaskRow>, status: string): set<nat> {
    set j: nat | j < |tasks| && tasks[j].status == status
  }

  lemma {:induction false} CountOfExact(tasks: seq<TaskRow>, status: string)
    ensures CountOf(tasks, status) == |InStatus(tasks, status)|
  {
    if tasks != [] {
      var n := |tasks| - 1;
      CountOfExact(tasks[..n], status);
      var front := InStatus(tasks[..n], status);
      assert InStatus(tasks, status) == if tasks[n].status == status then front + {n} else front;
    } else {
      assert InStatus(tasks, status) == {};
    }
  }

  // --------------------------------------------------- totals, row by row

  /** The task's kluster is in the list, and the mission, the kluster or the task matches. */
  ghost predicate TaskIn(q: Search, hit: bool, ks: seq<KlusterRow>, t: TaskRow) {
    exists k :: k in ks && TaskUnder(q, hit, k, t)
  }

  ghost predicate TaskUnder(q: Search, hit: bool, k: KlusterRow, t: TaskRow) {
    k.id == t.kluster && (hit || q.Hits(k.Texts()) || q.Hits(t.Texts()))
  }

  ghost function TasksUnder(q: Search, hit: bool, k: KlusterRow, tasks: seq<TaskRow>): set<nat> {
    set j: nat | j < |tasks| && TaskUnder(q, hit, k, tasks[j])
  }

  ghost function TasksIn(q: Search, hit: bool, ks: seq<KlusterRow>, tasks: seq<TaskRow>): set<nat> {
    set j: nat | j < |tasks| && TaskIn(q, hit, ks, tasks[j])
  }

  ghost function Size(shown: Option<seq<TaskRow>>): nat {
    if shown.Some? then |shown.value| else 0
  }

  /** A kluster counts the tasks under it that match, or all when it or its mission does. */
  lemma {:induction false} UnderCount(q: Search, hit: bool, k: KlusterRow, tasks: seq<TaskRow>)
    ensures Size(Display(q, hit, k, TasksOf(tasks, k.id))) == |TasksUnder(q, hit, k, tasks)|
  {
    hide Search.Hits, Display, TasksUnder;
    if tasks != [] {
      var n := |tasks| - 1;
      UnderCount(q, hit, k, tasks[..n]);
      UnderMore(q, hit, k, tasks);
      assert TasksOf(tasks, k.id) ==
        if tasks[n].kluster == k.id then TasksOf(tasks[..n], k.id) + [tasks[n]] else TasksOf(tasks[..n], k.id);
      OneMoreTask(q, hit, k, TasksOf(tasks[..n], k.id), tasks[n]);
    } else {
      NothingUnder(q, hit, k);
    }
  }

  lemma NothingUnder(q: Search, hit: bool, k: KlusterRow)
    ensures TasksUnder(q, hit, k, []) == {} && Size(Display(q, hit, k, [])) == 0
  {
  }

  lemma UnderMore(q: Search, hit: bool, k: KlusterRow, tasks: seq<TaskRow>)
    requires tasks != []
    ensures var n := |tasks| - 1;
      |TasksUnder(q, hit, k, tasks)| ==
        |TasksUnder(q, hit, k, tasks[..n])| + if TaskUnder(q, hit, k, tasks[n]) then 1 else 0
  {
    hide TaskUnder;
    var n := |tasks| - 1;
    var front := TasksUnder(q, hit, k, tasks[..n]);
    assert TasksUnder(q, hit, k, tasks) == if TaskUnder(q, hit, k, tasks[n]) then front + {n} else front;
  }

  lemma OneMoreTask(q: Search, hit: bool, k: KlusterRow, all: seq<TaskRow>, t: TaskRow)
    ensures Size(Display(q, hit, k, all + [t])) ==
      Size(Display(q, hit, k, all)) + if hit || q.Hits(k.Texts()) || q.Hits(t.Texts()) then 1 else 0
  {
    hide Search.Hits;
    assert (all + [t])[..|all|] == all;
  }

  lemma {:induction false} SummariesCount(q: Search, hit: bool, ks: seq<KlusterRow>, tasks: seq<TaskRow>, limit: nat)
    requires DistinctKlusters(ks)
    ensures TaskTotal(Summaries(q, hit, ks, tasks, limit)) == |TasksIn(q, hit, ks, tasks)|
  {
    hide Search.Hits, Display, TasksOf;
    if ks != [] {
      var n := |ks| - 1;
      SummariesCount(q, hit, ks[..n], tasks, limit);
      UnderCount(q, hit, ks[n], tasks);
      TaskTotalMore(q, hit, ks, tasks, limit);
      var front, own := TasksIn(q, hit, ks[..n], tasks), TasksUnder(q, hit, ks[n], tasks);
      TasksInMore(q, hit, ks, tasks);
      assert front * own == {};
    } else {
      assert TasksIn(q, hit, ks, tasks) == {};
    }
  }

  lemma TaskTotalMore(q: Search, hit: bool, ks: seq<KlusterRow>, tasks: seq<TaskRow>, limit: nat)
    requires ks != []
    ensures var n := |ks| - 1;
      TaskTotal(Summaries(q, hit, ks, tasks, limit)) ==
        TaskTotal(Summaries(q, hit, ks[..n], tasks, limit)) + Size(Display(q, hit, ks[n], TasksOf(tasks, ks[n].id)))
  {
    hide Search.Hits, Display, TasksOf;
    var n := |ks| - 1;
    var front, d := Summaries(q, hit, ks[..n], tasks, limit), Display(q, hit, ks[n], TasksOf(tasks, ks[n].id));
    if d.Some? {
      assert (front + [Summarize(ks[n], d.value, limit)])[..|front|] == front;
    } else {
      assert Summaries(q, hit, ks, tasks, limit) == front;
    }
  }

  lemma TasksInMore(q: Search, hit: bool, ks: seq<KlusterRow>, tasks: seq<TaskRow>)
    requires ks != [] && DistinctKlusters(ks)
    ensures var n := |ks| - 1;
      && TasksIn(q, hit, ks, tasks) == TasksIn(q, hit, ks[..n], tasks) + TasksUnder(q, hit, ks[n], tasks)
      && forall j | j in TasksIn(q, hit, ks[..n], tasks) :: j !in TasksUnder(q, hit, ks[n], tasks)
  {
    hide Search.Hits;
    var n := |ks| - 1;
    assert ks == ks[..n] + [ks[n]];
    HasIdMore(ks);
    forall j: nat | j < |tasks|
      ensures TaskIn(q, hit, ks, tasks[j]) <==> TaskIn(q, hit, ks[..n], tasks[j]) || TaskUnder(q, hit, ks[n], tasks[j])
    {
    }
    forall j | j in TasksIn(q, hit, ks[..n], tasks) ensures j !in TasksUnder(q, hit, ks[n], tasks) {
      var k :| k in ks[..n] && TaskUnder(q, hit, k, tasks[j]);
      assert HasId(ks[..n], k.id);
    }
  }

  /** The task stands in the tree: its kluster has no mission, or one of the missions,
      and mission, kluster or task matches. */
  ghost predicate Standing(q: Search, ms: seq<MissionRow>, klusters: seq<KlusterRow>, t: TaskRow) {
    || StandsAlone(q, klusters, t)
    || exists m :: m in ms && StandsUnder(q, m, klusters, t)
  }

  ghost function StandingTasks(q: Search, ms: seq<MissionRow>, klusters: seq<KlusterRow>,
                               tasks: seq<TaskRow>): set<nat>
  {
    set j: nat | j < |tasks| && Standing(q, ms, klusters, tasks[j])
  }

  ghost predicate StandsAlone(q: Search, klusters: seq<KlusterRow>, t: TaskRow) {
    exists k :: k in klusters && k.mission == None && TaskUnder(q, false, k, t)
  }

  ghost predicate StandsUnder(q: Search, m: MissionRow, klusters: seq<KlusterRow>, t: TaskRow) {
    exists k :: k in klusters && k.mission == Some(m.id) && TaskUnder(q, q.Hits(m.Texts()), k, t)
  }

  ghost function AllUnder(q: Search, ms: seq<MissionRow>, klusters: seq<KlusterRow>, tasks: seq<TaskRow>): set<nat> {
    set j: nat | j < |tasks| && exists m :: m in ms && StandsUnder(q, m, klusters, tasks[j])
  }

  lemma OfMission(q: Search, hit: bool, mission: Option<string>, klusters: seq<KlusterRow>, t: TaskRow)
    ensures TaskIn(q, hit, KlustersOf(klusters, mission), t) <==>
      exists k :: k in klusters && k.mission == mission && TaskUnder(q, hit, k, t)
  {
    hide TaskUnder;
    KlustersOfExact(klusters, mission);
  }

  /** Under one mission row, the tasks that stand are those its klusters show. */
  lemma MissionCount(q: Search, m: MissionRow, klusters: seq<KlusterRow>, tasks: seq<TaskRow>, limit: nat)
    requires DistinctKlusters(klusters)
    ensures TaskTotal(MissionKlusters(q, m, klusters, tasks, limit)) ==
      |set j: nat | j < |tasks| && StandsUnder(q, m, klusters, tasks[j])|
  {
    hide TaskIn, TaskUnder, Search.Hits;
    var hit, own := q.Hits(m.Texts()), KlustersOf(klusters, Some(m.id));
    KlustersOfDistinct(klusters, Some(m.id));
    SummariesCount(q, hit, own, tasks, limit);
    forall j: nat | j < |tasks| ensures TaskIn(q, hit, own, tasks[j]) <==> StandsUnder(q, m, klusters, tasks[j]) {
      OfMission(q, hit, Some(m.id), klusters, tasks[j]);
    }
    assert TasksIn(q, hit, own, tasks) == set j: nat | j < |tasks| && StandsUnder(q, m, klusters, tasks[j]);
  }

  lemma {:induction false} MissionsCount(q: Search, ms: seq<MissionRow>, klusters: seq<KlusterRow>,
                                         tasks: seq<TaskRow>, limit: nat)
    requires DistinctKeys(ms, klusters)
    ensures MissionTaskTotal(Missions(q, ms, klusters, tasks, limit)) == |AllUnder(q, ms, klusters, tasks)|
  {
    hide Search.Hits, MissionKlusters, TaskTotal, AllUnder, StandsUnder;
    if ms != [] {
      var n := |ms| - 1;
      MissionsCount(q, ms[..n], klusters, tasks, limit);
      MissionCount(q, ms[n], klusters, tasks, limit);
      MissionTotalMore(q, ms, klusters, tasks, limit);
      AllUnderMore(q, ms, klusters, tasks);
    } else {
      NobodyUnder(q, klusters, tasks);
    }
  }

  lemma NobodyUnder(q: Search, klusters: seq<KlusterRow>, tasks: seq<TaskRow>)
    ensures AllUnder(q, [], klusters, tasks) == {}
  {
  }

  lemma AllUnderMore(q: Search, ms: seq<MissionRow>, klusters: seq<KlusterRow>, tasks: seq<TaskRow>)
    requires DistinctKeys(ms, klusters) && ms != []
    ensures var n := |ms| - 1;
      |AllUnder(q, ms, klusters, tasks)| == |AllUnder(q, ms[..n], klusters, tasks)|
        + |set j: nat | j < |tasks| && StandsUnder(q, ms[n], klusters, tasks[j])|
  {
    hide StandsUnder, Search.Hits;
    var n := |ms| - 1;
    var front := AllUnder(q, ms[..n], klusters, tasks);
    var own := set j: nat | j < |tasks| && StandsUnder(q, ms[n], klusters, tasks[j]);
    assert ms == ms[..n] + [ms[n]];
    assert AllUnder(q, ms, klusters, tasks) == front + own;
    forall j | j in front ensures j !in own {
      var m :| m in ms[..n] && StandsUnder(q, m, klusters, tasks[j]);
      FrontIsOther(ms, m);
      if j in own {
        OneMissionOnly(q, m, ms[n], klusters, tasks[j]);
      }
    }
    assert front * own == {};
  }

  lemma FrontIsOther(ms: seq<MissionRow>, m: MissionRow)
    requires ms != [] && m in ms[..|ms| - 1] && forall i, j | 0 <= i < j < |ms| :: ms[i].id != ms[j].id
    ensures m.id != ms[|ms| - 1].id
  {
    var i :| 0 <= i < |ms| - 1 && ms[..|ms| - 1][i] == m;
  }

  lemma OneMissionOnly(q: Search, a: MissionRow, b: MissionRow, klusters: seq<KlusterRow>, t: TaskRow)
    requires DistinctKlusters(klusters) && StandsUnder(q, a, klusters, t) && StandsUnder(q, b, klusters, t)
    ensures a.id == b.id
  {
    var j :| j in klusters && j.mission == Some(a.id) && TaskUnder(q, q.Hits(a.Texts()), j, t);
    var k :| k in klusters && k.mission == Some(b.id) && TaskUnder(q, q.Hits(b.Texts()), k, t);
    SameRow(klusters, j, k);
  }

  lemma MissionTotalMore(q: Search, ms: seq<MissionRow>, klusters: seq<KlusterRow>, tasks: seq<TaskRow>, limit: nat)
    requires ms != []
    ensures var n := |ms| - 1;
      MissionTaskTotal(Missions(q, ms, klusters, tasks, limit)) ==
        MissionTaskTotal(Missions(q, ms[..n], klusters, tasks, limit))
          + TaskTotal(MissionKlusters(q, ms[n], klusters, tasks, limit))
  {
    hide Search.Hits, MissionKlusters;
    var n := |ms| - 1;
    var front, ks := Missions(q, ms[..n], klusters, tasks, limit), MissionKlusters(q, ms[n], klusters, tasks, limit);
    if q.Hits(ms[n].Texts()) || ks != [] {
      assert (front + [Mission(ms[n], ks)])[..|front|] == front;
    } else {
      assert Missions(q, ms, klusters, tasks, limit) == front;
    }
  }

  /** The task total of the tree is the number of task rows that stand in it: each once,
      whichever way it got there. */
  lemma TasksCountedOnce(q: Search, ms: seq<MissionRow>, klusters: seq<KlusterRow>, tasks: seq<TaskRow>, limit: nat)
    requires DistinctKeys(ms, klusters)
    ensures MissionTaskTotal(Missions(q, ms, klusters, tasks, limit))
            + TaskTotal(Unassigned(q, klusters, tasks, limit))
         == |StandingTasks(q, ms, klusters, tasks)|
  {
    hide StandsUnder, StandsAlone, TaskUnder, Search.Hits, TaskIn;
    var none := KlustersOf(klusters, None);
    MissionsCount(q, ms, klusters, tasks, limit);
    KlustersOfDistinct(klusters, None);
    SummariesCount(q, false, none, tasks, limit);
    var under, alone := AllUnder(q, ms, klusters, tasks), TasksIn(q, false, none, tasks);
    forall j: nat | j < |tasks| ensures TaskIn(q, false, none, tasks[j]) <==> StandsAlone(q, klusters, tasks[j]) {
      OfMission(q, false, None, klusters, tasks[j]);
      AloneIs(q, klusters, tasks[j]);
    }
    assert StandingTasks(q, ms, klusters, tasks) == under + alone;
    forall j | j in under ensures j !in alone {
      var m :| m in ms && StandsUnder(q, m, klusters, tasks[j]);
      if j in alone {
        NotBoth(q, m, klusters, tasks[j]);
      }
    }
    assert under * alone == {};
  }

  lemma AloneIs(q: Search, klusters: seq<KlusterRow>, t: TaskRow)
    ensures StandsAlone(q, klusters, t) <==>
      exists k :: k in klusters && k.mission == None && TaskUnder(q, false, k, t)
  {
  }

  lemma NotBoth(q: Search, m: MissionRow, klusters: seq<KlusterRow>, t: TaskRow)
    requires DistinctKlusters(klusters)
    ensures !(StandsUnder(q, m, klusters, t) && StandsAlone(q, klusters, t))
  {
    if StandsUnder(q, m, klusters, t) && StandsAlone(q, klusters, t) {
      var j :| j in klusters && j.mission == Some(m.id) && TaskUnder(q, q.Hits(m.Texts()), j, t);
      var k :| k in klusters && k.mission == None && TaskUnder(q, false, k, t);
      SameRow(klusters, j, k);
    }
  }

  /** The kluster stands in the tree: it has no mission, or one of the missions, and the
      mission, it or one of its tasks matches. */
  ghost predicate KlusterStands(q: Search, ms: seq<MissionRow>, tasks: seq<TaskRow>, k: KlusterRow) {
    if k.mission == None then q.Hits(k.Texts()) || TaskHit(q, tasks, k.id)
    else exists m :: m in ms && k.mission == Some(m.id)
           && (q.Hits(m.Texts()) || q.Hits(k.Texts()) || TaskHit(q, tasks, k.id))
  }

  ghost function StandingKlusters(q: Search, ms: seq<MissionRow>, klusters: seq<KlusterRow>,
                                  tasks: seq<TaskRow>): set<string>
  {
    set k | k in klusters && KlusterStands(q, ms, tasks, k) :: k.id
  }

  /** The klusters of the tree are exactly the rows that stand in it, and its kluster
      total counts each of them once. */
  lemma KlustersCountedOnce(q: Search, ms: seq<MissionRow>, klusters: seq<KlusterRow>, tasks: seq<TaskRow>, limit: nat)
    requires DistinctKeys(ms, klusters)
    ensures var out, rest := Missions(q, ms, klusters, tasks, limit), Unassigned(q, klusters, tasks, limit);
      var standing := StandingKlusters(q, ms, klusters, tasks);
      AllIds(out) + Ids(rest) == standing && KlusterTotal(out) + |rest| == |standing|
  {
    hide TaskHit, Search.Hits, AllIds, Ids;
    var out, rest := Missions(q, ms, klusters, tasks, limit), Unassigned(q, klusters, tasks, limit);
    IncludedCount(q, ms, klusters, tasks, limit);
    MissionsListed(q, ms, klusters, tasks, limit);
    SummariesListed(q, false, None, klusters, tasks, limit);
    forall k | k in klusters ensures k.id in AllIds(out) + Ids(rest) <==> KlusterStands(q, ms, tasks, k) {
      StandsIff(q, ms, klusters, tasks, limit, k);
    }
    forall id | id in AllIds(out) + Ids(rest) ensures exists k :: k in klusters && k.id == id {
      if id in AllIds(out) {
        assert ListedUnder(ms, klusters, id);
      }
    }
  }

  lemma StandsIff(q: Search, ms: seq<MissionRow>, klusters: seq<KlusterRow>, tasks: seq<TaskRow>, limit: nat,
                  k: KlusterRow)
    requires DistinctKeys(ms, klusters) && k in klusters
    ensures k.id in AllIds(Missions(q, ms, klusters, tasks, limit)) + Ids(Unassigned(q, klusters, tasks, limit)) <==>
      KlusterStands(q, ms, tasks, k)
  {
    hide TaskHit, Search.Hits, AllIds, Ids;
    var out, rest := Missions(q, ms, klusters, tasks, limit), Unassigned(q, klusters, tasks, limit);
    MissionsListed(q, ms, klusters, tasks, limit);
    SummariesListed(q, false, None, klusters, tasks, limit);
    assert Listed(klusters, k.id, k.mission);
    if k.mission == None {
      IdShownIff(q, false, None, klusters, tasks, limit, k);
      NoneIsUnderNoMission(ms, klusters, k);
    } else {
      if k.id in Ids(rest) {
        ListedOnce(klusters, k.id, None, k.mission);
      }
      if k.id in AllIds(out) {
        assert ListedUnder(ms, klusters, k.id);
        var m :| m in ms && Listed(klusters, k.id, Some(m.id));
        ListedOnce(klusters, k.id, Some(m.id), k.mission);
        KeptIff(q, ms, klusters, tasks, limit, m, k);
      }
      forall m | m in ms && k.mission == Some(m.id)
        ensures k.id in AllIds(out) <==> q.Hits(m.Texts()) || q.Hits(k.Texts()) || TaskHit(q, tasks, k.id)
      {
        KeptIff(q, ms, klusters, tasks, limit, m, k);
      }
    }
  }

  lemma NoneIsUnderNoMission(ms: seq<MissionRow>, klusters: seq<KlusterRow>, k: KlusterRow)
    requires DistinctKlusters(klusters) && k in klusters && k.mission == None
    ensures !ListedUnder(ms, klusters, k.id)
  {
    forall m | m in ms ensures !Listed(klusters, k.id, Some(m.id)) {
      forall j | j in klusters && j.id == k.id ensures j == k {
        SameRow(klusters, j, k);
      }
    }
  }

  /** Which columns a search looks at. */
  lemma ColumnsSearched(q: Search, m: MissionRow, k: KlusterRow, t: TaskRow)
    ensures q.Hits(m.Texts()) <==>
      q.needle == "" || HitsOne(q, m.name) || HitsOne(q, m.description) || HitsOne(q, m.tags) || HitsOne(q, m.owners)
    ensures q.Hits(k.Texts()) <==>
      q.needle == "" || HitsOne(q, k.name) || HitsOne(q, k.description) || HitsOne(q, k.tags) || HitsOne(q, k.owners)
    ensures q.Hits(t.Texts()) <==>
      q.needle == "" || HitsOne(q, t.title) || HitsOne(q, t.description) || HitsOne(q, t.owner)
      || HitsOne(q, Some(t.status))
  {
    HitsFour(q, m.name, m.description, m.tags, m.owners);
    HitsFour(q, k.name, k.description, k.tags, k.owners);
    HitsFour(q, t.title, t.description, t.owner, Some(t.status));
  }

  /** The column is not empty and holds the search text somewhere, lower-cased. */
  ghost predicate HitsOne(q: Search, column: Option<string>) {
    && column.Some? && column.value != ""
    && exists before, after :: q.lower(column.value) == before + q.needle + after
  }

  lemma HitsFour(q: Search, a: Option<string>, b: Option<string>, c: Option<string>, d: Option<string>)
    ensures q.Hits([a, b, c, d]) <==> q.needle == "" || HitsOne(q, a) || HitsOne(q, b) || HitsOne(q, c) || HitsOne(q, d)
  {
    hide Search.Found;
    var texts := [a, b, c, d];
    assert texts[0] == a && texts[1] == b && texts[2] == c && texts[3] == d;
    forall t | t in texts ensures t.Some? && t.value != "" && q.Found(t.value) <==> HitsOne(q, t) {
      if t.Some? {
        FoundIff(q, t.value);
      }
    }
  }

  lemma FoundIff(q: Search, text: string)
    ensures q.Found(text) <==> exists before, after :: q.lower(text) == before + q.needle + after
  {
    var s := q.lower(text);
    if q.Found(text) {
      var i, j :| 0 <= i <= j <= |s| && s[i..j] == q.needle;
      assert s == s[..i] + q.needle + s[j..];
    }
    forall before, after | s == before + q.needle + after ensures q.Found(text) {
      assert s[|before|..|before| + |q.needle|] == q.needle;
    }
  }
}
