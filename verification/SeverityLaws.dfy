/** What the severity lists and sums say about the reports, in scores and positions. */
module SeverityLaws {
  import opened Basics
  import opened Severity

  // The scores visited, by the position of their report and their position in it

  predicate Visited(tools: seq<Tool>, k: int, n: int) {
    && 0 <= k < |tools| && tools[k].report.Some? && tools[k].name != "Scantist.json"
    && 0 <= n < |tools[k].report.value.scores|
  }

  function CveAt(tools: seq<Tool>, k: int, n: int): string
    requires WellFormed(tools) && Visited(tools, k, n)
  {
    tools[k].report.value.cves[n]
  }

  function ScoreAt(tools: seq<Tool>, k: int, n: int): Option<real>
    requires Visited(tools, k, n)
  {
    tools[k].report.value.scores[n]
  }

  predicate Between(score: Option<real>, low: real, high: real) { score.Some? && low <= score.value <= high }

  predicate Rated(score: Option<real>) {
    Between(score, 0.1, 3.9) || Between(score, 4.0, 6.9) || Between(score, 7.0, 8.9) || Between(score, 9.0, 10.0)
  }

  predicate Before(j: int, m: int, k: int, n: int) { j < k || (j == k && m < n) }

  predicate RatedAt(tools: seq<Tool>, c: string, k: int, n: int)
    requires WellFormed(tools)
  {
    Visited(tools, k, n) && CveAt(tools, k, n) == c && Rated(ScoreAt(tools, k, n))
  }

  // The first visited score of c that lies in one of the four ranges.
  ghost predicate FirstRatedAt(tools: seq<Tool>, c: string, k: int, n: int)
    requires WellFormed(tools)
  {
    RatedAt(tools, c, k, n) && forall j, m :: Before(j, m, k, n) ==> !RatedAt(tools, c, j, m)
  }

  ghost predicate FirstBetween(tools: seq<Tool>, c: string, low: real, high: real)
    requires WellFormed(tools)
  {
    exists k, n :: FirstRatedAt(tools, c, k, n) && Between(ScoreAt(tools, k, n), low, high)
  }

  // The CVEs stand in the order of their first rated scores.
  ghost predicate InOrder(tools: seq<Tool>, cves: seq<string>)
    requires WellFormed(tools)
  {
    forall x, y, j, m, k, n | 0 <= x < y < |cves| ::
      (FirstRatedAt(tools, cves[x], j, m) && FirstRatedAt(tools, cves[y], k, n)) ==> Before(j, m, k, n)
  }

  // The same on the entries

  predicate RatedEntry(e: seq<Entry>, c: string, i: int) { 0 <= i < |e| && e[i].cve == c && Rated(e[i].score) }

  ghost predicate FirstEntry(e: seq<Entry>, c: string, i: int) {
    RatedEntry(e, c, i) && forall j :: j < i ==> !RatedEntry(e, c, j)
  }

  ghost predicate OrderedEntries(e: seq<Entry>, cves: seq<string>) {
    forall x, y, i, j :: 0 <= x < y < |cves| && FirstEntry(e, cves[x], i) && FirstEntry(e, cves[y], j) ==> i < j
  }

  lemma {:induction false} FirstEntryExists(e: seq<Entry>, c: string) returns (i: int)
    requires FirstBand(e, c).Some?
    ensures FirstEntry(e, c, i)
  {
    var n := |e| - 1;
    if FirstBand(e[..n], c).Some? {
      i := FirstEntryExists(e[..n], c);
      assert forall j :: 0 <= j < n ==> RatedEntry(e, c, j) == RatedEntry(e[..n], c, j);
    } else {
      i := n;
      ClassifiedIff(e[..n], c);
      forall j | 0 <= j < n
        ensures !RatedEntry(e, c, j)
      {
        assert e[..n][j] == e[j];
      }
    }
  }

  lemma FirstEntryBand(e: seq<Entry>, c: string, i: int)
    requires FirstEntry(e, c, i)
    ensures FirstBand(e, c) == BandOf(e[i].score)
  {
    assert forall j :: 0 <= j < i && e[j].cve == c ==> !RatedEntry(e, c, j);
    FirstBandIsFirst(e, c, i);
  }

  lemma ClassifiedHasEntry(e: seq<Entry>, c: string)
    ensures c in Classified(e) <==> exists i :: RatedEntry(e, c, i)
  {
    ClassifiedIff(e, c);
    if c in Classified(e) {
      var i := FirstEntryExists(e, c);
    }
    if i :| RatedEntry(e, c, i) {
      assert BandOf(e[i].score).Some?;
    }
  }

  lemma FirstEntryOfPrefix(e: seq<Entry>, c: string, n: nat, i: int)
    requires n <= |e| && FirstEntry(e, c, i) && c in Classified(e[..n])
    ensures i < n && FirstEntry(e[..n], c, i)
  {
    ClassifiedHasEntry(e[..n], c);
    assert forall j :: RatedEntry(e[..n], c, j) <==> j < n && RatedEntry(e, c, j);
  }

  lemma {:induction false} ClassifiedInOrder(e: seq<Entry>)
    ensures OrderedEntries(e, Classified(e))
  {
    if e != [] {
      var n := |e| - 1;
      var before, cves := Classified(e[..n]), Classified(e);
      ClassifiedInOrder(e[..n]);
      forall x, y, i, j | 0 <= x < y < |cves| && FirstEntry(e, cves[x], i) && FirstEntry(e, cves[y], j)
        ensures i < j
      {
        FirstEntryOfPrefix(e, cves[x], n, i);
        if y < |before| {
          FirstEntryOfPrefix(e, cves[y], n, j);
        } else {
          ClassifiedHasEntry(e[..n], cves[y]);
          assert j < n ==> RatedEntry(e[..n], cves[y], j);
        }
      }
    }
  }

  lemma {:induction false} InBandInOrder(e: seq<Entry>, cves: seq<string>, band: Band)
    requires OrderedEntries(e, cves)
    ensures OrderedEntries(e, InBand(e, cves, band))
  {
    if cves != [] {
      var n := |cves| - 1;
      var before, listed := InBand(e, cves[..n], band), InBand(e, cves, band);
      InBandInOrder(e, cves[..n], band);
      forall x, y, i, j | 0 <= x < y < |listed| && FirstEntry(e, listed[x], i) && FirstEntry(e, listed[y], j)
        ensures i < j
      {
        if y == |before| {
          InBandIff(e, cves[..n], band, listed[x]);
          var z :| 0 <= z < n && cves[..n][z] == listed[x];
          assert cves[z] == listed[x] && cves[n] == listed[y];
        }
      }
    }
  }

  // Where an entry comes from

  function EntryIndex(tools: seq<Tool>, k: int, n: int): (i: int)
    requires WellFormed(tools) && 0 <= k < |tools| && 0 <= n
    ensures 0 <= i
  {
    |Entries(tools[..k])| + n
  }

  lemma {:induction false} EntryAt(tools: seq<Tool>, k: int, n: int)
    requires WellFormed(tools) && Visited(tools, k, n)
    ensures EntryIndex(tools, k, n) < |Entries(tools)|
    ensures Entries(tools)[EntryIndex(tools, k, n)] == Entry(CveAt(tools, k, n), ScoreAt(tools, k, n))
  {
    var last := |tools| - 1;
    assert tools[..last + 1] == tools;
    EntriesStep(tools, last);
    if k < last {
      assert tools[..last][..k] == tools[..k];
      EntryAt(tools[..last], k, n);
    }
  }

  lemma {:induction false} EntryFrom(tools: seq<Tool>, i: int) returns (k: int, n: int)
    requires WellFormed(tools) && 0 <= i < |Entries(tools)|
    ensures Visited(tools, k, n) && EntryIndex(tools, k, n) == i
  {
    var last := |tools| - 1;
    if i < |Entries(tools[..last])| {
      k, n := EntryFrom(tools[..last], i);
      assert tools[..last][..k] == tools[..k];
    } else {
      k, n := last, i - |Entries(tools[..last])|;
    }
  }

  lemma IndexOrder(tools: seq<Tool>, j: int, m: int, k: int, n: int)
    requires WellFormed(tools) && Visited(tools, j, m) && Visited(tools, k, n) && Before(j, m, k, n)
    ensures EntryIndex(tools, j, m) < EntryIndex(tools, k, n)
  {
    if j < k {
      EntryAt(tools[..k], j, m);
      assert tools[..k][..j] == tools[..j];
    }
  }

  lemma RatedIff(tools: seq<Tool>, c: string, k: int, n: int)
    requires WellFormed(tools) && Visited(tools, k, n)
    ensures RatedAt(tools, c, k, n) <==> RatedEntry(Entries(tools), c, EntryIndex(tools, k, n))
  {
    EntryAt(tools, k, n);
  }

  lemma FirstIff(tools: seq<Tool>, c: string, k: int, n: int)
    requires WellFormed(tools) && Visited(tools, k, n)
    ensures FirstRatedAt(tools, c, k, n) <==> FirstEntry(Entries(tools), c, EntryIndex(tools, k, n))
  {
    var e := Entries(tools);
    RatedIff(tools, c, k, n);
    if FirstRatedAt(tools, c, k, n) {
      forall i | 0 <= i < EntryIndex(tools, k, n)
        ensures !RatedEntry(e, c, i)
      {
        EntryAt(tools, k, n);
        var j, m := EntryFrom(tools, i);
        RatedIff(tools, c, j, m);
        if !Before(j, m, k, n) && (j != k || m != n) {
          IndexOrder(tools, k, n, j, m);
        }
      }
    } else if FirstEntry(e, c, EntryIndex(tools, k, n)) {
      var j, m :| Before(j, m, k, n) && RatedAt(tools, c, j, m);
      RatedIff(tools, c, j, m);
      IndexOrder(tools, j, m, k, n);
      assert false;
    }
  }

  // A band and its range.
  predicate RangeOf(band: Band, low: real, high: real) {
    match band
    case Low => low == 0.1 && high == 3.9
    case Medium => low == 4.0 && high == 6.9
    case High => low == 7.0 && high == 8.9
    case Critical => low == 9.0 && high == 10.0
  }

  lemma BandIffBetween(tools: seq<Tool>, c: string, band: Band, low: real, high: real)
    requires WellFormed(tools) && RangeOf(band, low, high)
    ensures FirstBand(Entries(tools), c) == Some(band) <==> FirstBetween(tools, c, low, high)
  {
    var e := Entries(tools);
    if FirstBand(e, c) == Some(band) {
      var i := FirstEntryExists(e, c);
      FirstEntryBand(e, c, i);
      var k, n := EntryFrom(tools, i);
      EntryAt(tools, k, n);
      FirstIff(tools, c, k, n);
      assert FirstRatedAt(tools, c, k, n) && Between(ScoreAt(tools, k, n), low, high);
    }
    if FirstBetween(tools, c, low, high) {
      var k, n :| FirstRatedAt(tools, c, k, n) && Between(ScoreAt(tools, k, n), low, high);
      FirstIff(tools, c, k, n);
      EntryAt(tools, k, n);
      FirstEntryBand(e, c, EntryIndex(tools, k, n));
    }
  }

  lemma ListedIff(tools: seq<Tool>, c: string, band: Band, low: real, high: real)
    requires WellFormed(tools) && RangeOf(band, low, high)
    ensures c in Listed(Partition(Entries(tools)), band) <==> FirstBetween(tools, c, low, high)
  {
    var e := Entries(tools);
    InBandIff(e, Classified(e), band, c);
    ClassifiedIff(e, c);
    BandIffBetween(tools, c, band, low, high);
  }

  lemma RatedSomewhereIff(tools: seq<Tool>, c: string)
    requires WellFormed(tools)
    ensures c in Classified(Entries(tools)) <==> exists k, n :: RatedAt(tools, c, k, n)
  {
    var e := Entries(tools);
    ClassifiedHasEntry(e, c);
    if c in Classified(e) {
      var i :| RatedEntry(e, c, i);
      var k, n := EntryFrom(tools, i);
      RatedIff(tools, c, k, n);
      assert RatedAt(tools, c, k, n);
    }
    if k, n :| RatedAt(tools, c, k, n) {
      RatedIff(tools, c, k, n);
    }
  }

  lemma OrderOfEntries(tools: seq<Tool>, cves: seq<string>)
    requires WellFormed(tools) && OrderedEntries(Entries(tools), cves)
    ensures InOrder(tools, cves)
  {
    forall x, y, j, m, k, n | 0 <= x < y < |cves| && FirstRatedAt(tools, cves[x], j, m) &&
                              FirstRatedAt(tools, cves[y], k, n)
      ensures Before(j, m, k, n)
    {
      FirstIff(tools, cves[x], j, m);
      FirstIff(tools, cves[y], k, n);
      if !Before(j, m, k, n) && (j != k || m != n) {
        IndexOrder(tools, k, n, j, m);
      }
    }
  }

  // Exactly the CVEs whose first rated score lies in a range, each once and in the order of those scores.
  ghost predicate ListsFirst(tools: seq<Tool>, cves: seq<string>, low: real, high: real)
    requires WellFormed(tools)
  {
    && Distinct(cves) && InOrder(tools, cves)
    && forall c :: c in cves <==> FirstBetween(tools, c, low, high)
  }

  ghost predicate ListsRated(tools: seq<Tool>, cves: seq<string>)
    requires WellFormed(tools)
  {
    && Distinct(cves) && InOrder(tools, cves)
    && forall c :: c in cves <==> exists k, n :: RatedAt(tools, c, k, n)
  }

  lemma BandLists(tools: seq<Tool>, band: Band, low: real, high: real)
    requires WellFormed(tools) && RangeOf(band, low, high)
    ensures ListsFirst(tools, Listed(Partition(Entries(tools)), band), low, high)
  {
    var e := Entries(tools);
    var cves := Listed(Partition(e), band);
    PartsAreDisjoint(e);
    ClassifiedInOrder(e);
    InBandInOrder(e, Classified(e), band);
    OrderOfEntries(tools, cves);
    forall c
      ensures c in cves <==> FirstBetween(tools, c, low, high)
    {
      ListedIff(tools, c, band, low, high);
    }
  }

  /** The four severity lists of a repository hold exactly the CVEs whose first score that lies in one of the four
      ranges is between 0.1 and 3.9, between 4.0 and 6.9, between 7.0 and 8.9, between 9.0 and 10.0, each CVE once and
      in the order of those scores. The list of CVEs holds all of them, in that order. */
  lemma PartitionMeaning(tools: seq<Tool>)
    requires WellFormed(tools)
    ensures var l := Partition(Entries(tools));
            && ListsFirst(tools, l.low, 0.1, 3.9) && ListsFirst(tools, l.medium, 4.0, 6.9)
            && ListsFirst(tools, l.high, 7.0, 8.9) && ListsFirst(tools, l.critical, 9.0, 10.0)
            && ListsRated(tools, l.cves)
            && multiset(l.low) + multiset(l.medium) + multiset(l.high) + multiset(l.critical) == multiset(l.cves)
  {
    var e := Entries(tools);
    BandLists(tools, Low, 0.1, 3.9);
    BandLists(tools, Medium, 4.0, 6.9);
    BandLists(tools, High, 7.0, 8.9);
    BandLists(tools, Critical, 9.0, 10.0);
    PartsAreDisjoint(e);
    ClassifiedInOrder(e);
    OrderOfEntries(tools, Classified(e));
    forall c
      ensures c in Classified(e) <==> exists k, n :: RatedAt(tools, c, k, n)
    {
      RatedSomewhereIff(tools, c);
    }
  }

  // The counts

  ghost function Unscored(e: seq<Entry>): set<int> { set i | 0 <= i < |e| && e[i].score == None }

  lemma UnscoredStep(e: seq<Entry>)
    requires e != []
    ensures var n := |e| - 1; Unscored(e) == Unscored(e[..n]) + if e[n].score == None then {n} else {}
  {
    var n := |e| - 1;
    assert forall i :: 0 <= i < n ==> e[..n][i] == e[i];
  }

  lemma {:induction false} NoScoresCount(e: seq<Entry>)
    ensures NoScores(e) == |Unscored(e)|
  {
    if e == [] {
      assert Unscored(e) == {};
    } else {
      NoScoresCount(e[..|e| - 1]);
      UnscoredStep(e);
    }
  }

  lemma {:induction false} NoScoresSum(e: seq<Entry>, f: seq<Entry>)
    ensures NoScores(e + f) == NoScores(e) + NoScores(f)
  {
    if f == [] {
      assert e + f == e;
    } else {
      var n := |f| - 1;
      NoScoresSum(e, f[..n]);
      assert (e + f)[..|e| + n] == e + f[..n];
    }
  }

  lemma {:induction false} DistinctCount(s: seq<string>)
    requires Distinct(s)
    ensures |Members(s)| == |s|
  {
    if s == [] {
      assert Members(s) == {};
    } else {
      var n := |s| - 1;
      DistinctCount(s[..n]);
      assert s == s[..n] + [s[n]];
      assert Members(s) == Members(s[..n]) + {s[n]};
    }
  }

  // As many pairs of a set's number and a member of it as the sizes of the sets add up to.
  lemma {:induction false} PairCount<T>(sets: seq<set<T>>, sizes: seq<nat>) returns (pairs: set<(int, T)>)
    requires |sizes| == |sets| && forall r :: 0 <= r < |sets| ==> sizes[r] == |sets[r]|
    ensures forall p :: p in pairs <==> 0 <= p.0 < |sets| && p.1 in sets[p.0]
    ensures |pairs| == Sum(sizes)
  {
    if sets == [] {
      return {};
    }
    var n := |sets| - 1;
    var before := PairCount(sets[..n], sizes[..n]);
    var last := PairsWith(n, sets[n]);
    DisjointSizes(before, last);
    assert sizes == sizes[..n] + [sizes[n]];
    SumGrows(sizes[..n], sizes[n]);
    pairs := before + last;
  }

  lemma {:induction false} PairsWith<T>(r: int, s: set<T>) returns (pairs: set<(int, T)>)
    ensures forall p :: p in pairs <==> p.0 == r && p.1 in s
    ensures |pairs| == |s|
  {
    if s == {} {
      pairs := {};
    } else {
      var x :| x in s;
      pairs := PairsWith(r, s - {x});
      pairs := pairs + {(r, x)};
    }
  }

  lemma ReportMissing(k: int, report: Report) returns (missing: set<(int, int)>)
    requires |report.scores| <= |report.cves|
    ensures forall p :: p in missing <==>
                          p.0 == k && 0 <= p.1 < |report.scores| && report.scores[p.1] == None
    ensures |missing| == NoScores(ReportEntries(report))
  {
    var e := ReportEntries(report);
    NoScoresCount(e);
    missing := PairsWith(k, Unscored(e));
  }

  predicate MissingAt(tools: seq<Tool>, k: int, n: int) { Visited(tools, k, n) && ScoreAt(tools, k, n) == None }

  lemma MissingOfLast(tools: seq<Tool>, k: int, n: int)
    requires tools != []
    ensures var last := |tools| - 1;
            MissingAt(tools, k, n) <==>
            if k != last then MissingAt(tools[..last], k, n)
            else !Skipped(tools[k]) && var s := tools[k].report.value.scores; 0 <= n < |s| && s[n] == None
  {
  }

  lemma NoScoresOfLast(tools: seq<Tool>)
    requires WellFormed(tools) && tools != []
    ensures var last := |tools| - 1;
            NoScores(Entries(tools)) == NoScores(Entries(tools[..last])) +
            if Skipped(tools[last]) then 0 else NoScores(ReportEntries(tools[last].report.value))
  {
    var last := |tools| - 1;
    assert tools[..last + 1] == tools;
    EntriesStep(tools, last);
    NoScoresSum(Entries(tools[..last]), if Skipped(tools[last]) then [] else ReportEntries(tools[last].report.value));
  }

  lemma DisjointSizes<T>(a: set<T>, b: set<T>)
    requires forall x :: x in a ==> x !in b
    ensures |a + b| == |a| + |b|
  {
    assert a !! b;
  }

  /** The counter of missing scores counts the visited positions that hold none. */
  lemma {:induction false} MissingMeaning(tools: seq<Tool>) returns (missing: set<(int, int)>)
    requires WellFormed(tools)
    ensures forall p :: p in missing <==> MissingAt(tools, p.0, p.1)
    ensures |missing| == NoScores(Entries(tools))
  {
    if tools == [] {
      return {};
    }
    var last := |tools| - 1;
    var before := MissingMeaning(tools[..last]);
    var more: set<(int, int)> := {};
    if !Skipped(tools[last]) {
      more := ReportMissing(last, tools[last].report.value);
    }
    forall p: (int, int)
      ensures p in before + more <==> MissingAt(tools, p.0, p.1)
    {
      MissingOfLast(tools, p.0, p.1);
    }
    DisjointSizes(before, more);
    NoScoresOfLast(tools);
    missing := before + more;
  }

  ghost function MissingPositions(tools: seq<Tool>): set<(int, int)> {
    set k, n | 0 <= k < |tools| && !Skipped(tools[k]) && 0 <= n < |tools[k].report.value.scores| &&
               MissingAt(tools, k, n) :: (k, n)
  }

  lemma MissingPositionsCount(tools: seq<Tool>)
    requires WellFormed(tools)
    ensures |MissingPositions(tools)| == NoScores(Entries(tools))
  {
    var missing := MissingMeaning(tools);
    assert missing == MissingPositions(tools);
  }

  lemma MissingOfRepos(repos: seq<seq<Tool>>) returns (missing: set<(int, (int, int))>)
    requires AllWellFormed(repos)
    ensures forall p :: p in missing <==> 0 <= p.0 < |repos| && MissingAt(repos[p.0], p.1.0, p.1.1)
    ensures |missing| == Sum(NoScoresPerRepo(repos))
  {
    var sets := seq(|repos|, r requires 0 <= r < |repos| => MissingPositions(repos[r]));
    forall r | 0 <= r < |repos|
      ensures NoScoresPerRepo(repos)[r] == |sets[r]|
    {
      MissingPositionsCount(repos[r]);
    }
    missing := PairCount(sets, NoScoresPerRepo(repos));
  }

  ghost function MissingPerRic(rics: seq<seq<seq<Tool>>>): (sets: seq<set<(int, (int, int))>>) {
    seq(|rics|, a requires 0 <= a < |rics| =>
      set r, p | 0 <= r < |rics[a]| && p in MissingPositions(rics[a][r]) :: (r, p))
  }

  /** The count of missing scores over all RICs is the number of visited positions, in every repository of every RIC,
      that hold no score. */
  lemma MissingTotal(rics: seq<seq<seq<Tool>>>) returns (missing: set<(int, (int, (int, int)))>)
    requires forall a :: 0 <= a < |rics| ==> AllWellFormed(rics[a])
    ensures forall p :: p in missing <==>
                          && 0 <= p.0 < |rics| && 0 <= p.1.0 < |rics[p.0]|
                          && MissingAt(rics[p.0][p.1.0], p.1.1.0, p.1.1.1)
    ensures |missing| == Sum(NoScoresPerRic(rics))
  {
    var sets := MissingPerRic(rics);
    forall a | 0 <= a < |rics|
      ensures NoScoresPerRic(rics)[a] == |sets[a]|
    {
      var some := MissingOfRepos(rics[a]);
      assert some == sets[a];
    }
    missing := PairCount(sets, NoScoresPerRic(rics));
  }

  function Members(s: seq<string>): set<string> { set c | c in s }

  lemma BandPairs(repos: seq<seq<Tool>>, band: Band, low: real, high: real) returns (pairs: set<(int, string)>)
    requires AllWellFormed(repos) && RangeOf(band, low, high)
    ensures forall p :: p in pairs <==> 0 <= p.0 < |repos| && FirstBetween(repos[p.0], p.1, low, high)
    ensures |pairs| == SeverityDistribution(Distributions(repos), band)
  {
    var ls := Distributions(repos);
    var sets := seq(|ls|, r requires 0 <= r < |ls| => Members(Listed(ls[r], band)));
    forall r | 0 <= r < |ls|
      ensures |sets[r]| == |Listed(ls[r], band)|
      ensures forall c :: c in sets[r] <==> FirstBetween(repos[r], c, low, high)
    {
      BandLists(repos[r], band, low, high);
      DistinctCount(Listed(ls[r], band));
    }
    pairs := PairCount(sets, BandCounts(ls, band));
  }

  lemma RatedPairs(repos: seq<seq<Tool>>) returns (pairs: set<(int, string)>)
    requires AllWellFormed(repos)
    ensures forall p :: p in pairs <==> 0 <= p.0 < |repos| && exists k, n :: RatedAt(repos[p.0], p.1, k, n)
    ensures |pairs| == Sum(VulnerabilitiesPerRepo(Distributions(repos)))
  {
    var ls := Distributions(repos);
    var sets := seq(|ls|, r requires 0 <= r < |ls| => Members(ls[r].cves));
    forall r | 0 <= r < |ls|
      ensures |sets[r]| == |ls[r].cves|
      ensures forall c :: c in sets[r] <==> exists k, n :: RatedAt(repos[r], c, k, n)
    {
      PartitionMeaning(repos[r]);
      DistinctCount(ls[r].cves);
    }
    pairs := PairCount(sets, VulnerabilitiesPerRepo(ls));
  }

  /** The totals of a RIC count pairs of a repository and a CVE: the total and the sum of the counts of its repositories
      those where the CVE has a score in one of the four ranges, a severity those where the first such score is in the
      range of that severity; so the severities add up to the total. */
  lemma TotalsMeaning(repos: seq<seq<Tool>>)
    returns (rated: set<(int, string)>, low: set<(int, string)>, medium: set<(int, string)>, high: set<(int, string)>,
             critical: set<(int, string)>)
    requires AllWellFormed(repos)
    ensures forall p :: p in rated <==> 0 <= p.0 < |repos| && exists k, n :: RatedAt(repos[p.0], p.1, k, n)
    ensures forall p :: p in low <==> 0 <= p.0 < |repos| && FirstBetween(repos[p.0], p.1, 0.1, 3.9)
    ensures forall p :: p in medium <==> 0 <= p.0 < |repos| && FirstBetween(repos[p.0], p.1, 4.0, 6.9)
    ensures forall p :: p in high <==> 0 <= p.0 < |repos| && FirstBetween(repos[p.0], p.1, 7.0, 8.9)
    ensures forall p :: p in critical <==> 0 <= p.0 < |repos| && FirstBetween(repos[p.0], p.1, 9.0, 10.0)
    ensures var ls := Distributions(repos);
            && TotalCves(ls) == |rated| == Sum(VulnerabilitiesPerRepo(ls))
            && SeverityDistribution(ls, Low) == |low| && SeverityDistribution(ls, Medium) == |medium|
            && SeverityDistribution(ls, High) == |high| && SeverityDistribution(ls, Critical) == |critical|
            && |low| + |medium| + |high| + |critical| == |rated|
  {
    rated := RatedPairs(repos);
    low := BandPairs(repos, Low, 0.1, 3.9);
    medium := BandPairs(repos, Medium, 4.0, 6.9);
    high := BandPairs(repos, High, 7.0, 8.9);
    critical := BandPairs(repos, Critical, 9.0, 10.0);
    TotalsAgree(repos);
  }
}
