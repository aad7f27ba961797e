/** The severity partition of a repository's CVEs over the reports of several scanners, and the sums taken from it. */
module Severity {
  import opened Basics

  // A scanner's report lists CVEs and, position by position, their CVSS scores where known.
  datatype Report = Report(cves: seq<string>, scores: seq<Option<real>>)
  datatype Tool = Tool(name: string, report: Option<Report>)

  datatype Band = Low | Medium | High | Critical
  datatype Entry = Entry(cve: string, score: Option<real>)
  datatype Lists = Lists(low: seq<string>, medium: seq<string>, high: seq<string>, critical: seq<string>,
                         cves: seq<string>)

  const NOTHING := Lists([], [], [], [], [])

  // Scores between two bands, below 0.1 or above 10 are in none.
  function BandOf(score: Option<real>): Option<Band> {
    if score == None then None
    else if 0.1 <= score.value <= 3.9 then Some(Low)
    else if 4.0 <= score.value <= 6.9 then Some(Medium)
    else if 7.0 <= score.value <= 8.9 then Some(High)
    else if 9.0 <= score.value <= 10.0 then Some(Critical)
    else None
  }

  predicate WellFormed(tools: seq<Tool>) {
    forall k :: 0 <= k < |tools| && !Skipped(tools[k]) ==>
                  |tools[k].report.value.scores| <= |tools[k].report.value.cves|
  }

  predicate Skipped(tool: Tool) { tool.report == None || tool.name == "Scantist.json" }

  // The scored CVEs in the order in which they are visited.
  function Entries(tools: seq<Tool>): seq<Entry>
    requires WellFormed(tools)
  {
    if tools == [] then [] else
    var tool := tools[|tools| - 1];
    Entries(tools[..|tools| - 1]) + if Skipped(tool) then [] else ReportEntries(tool.report.value)
  }

  function ReportEntries(report: Report): seq<Entry>
    requires |report.scores| <= |report.cves|
  {
    seq(|report.scores|, k requires 0 <= k < |report.scores| => Entry(report.cves[k], report.scores[k]))
  }

  // The band of the first in-range score of a CVE.
  function FirstBand(entries: seq<Entry>, cve: string): Option<Band> {
    if entries == [] then None else
    var first := FirstBand(entries[..|entries| - 1], cve);
    var last := entries[|entries| - 1];
    if first == None && last.cve == cve then BandOf(last.score) else first
  }

  // The CVEs with an in-range score, in order of first such score.
  function Classified(entries: seq<Entry>): seq<string> {
    if entries == [] then [] else
    var before := Classified(entries[..|entries| - 1]);
    var last := entries[|entries| - 1];
    if BandOf(last.score).Some? && last.cve !in before then before + [last.cve] else before
  }

  // The part of a list of CVEs that belongs to a band.
  function InBand(entries: seq<Entry>, cves: seq<string>, band: Band): seq<string> {
    if cves == [] then [] else
    var cve := cves[|cves| - 1];
    InBand(entries, cves[..|cves| - 1], band) + if FirstBand(entries, cve) == Some(band) then [cve] else []
  }

  function Partition(entries: seq<Entry>): Lists {
    var cves := Classified(entries);
    Lists(InBand(entries, cves, Low), InBand(entries, cves, Medium),
          InBand(entries, cves, High), InBand(entries, cves, Critical), cves)
  }

  // The lists and the count of missing scores after some entries.
  ghost predicate Reached(l: Lists, noneCounter: nat, entries: seq<Entry>) {
    l == Partition(entries) && noneCounter == NoScores(entries)
  }

  function NoScores(entries: seq<Entry>): nat {
    if entries == [] then 0 else
    NoScores(entries[..|entries| - 1]) + if entries[|entries| - 1].score == None then 1 else 0
  }

  /** A CVE is listed exactly when some entry gives it an in-range score, and then it has a first band. */
  lemma {:induction false} ClassifiedIff(entries: seq<Entry>, cve: string)
    ensures cve in Classified(entries) <==>
            exists k :: 0 <= k < |entries| && entries[k].cve == cve && BandOf(entries[k].score).Some?
    ensures cve in Classified(entries) <==> FirstBand(entries, cve).Some?
  {
    if entries != [] {
      var n := |entries| - 1;
      ClassifiedIff(entries[..n], cve);
      if cve in Classified(entries[..n]) {
        var k :| 0 <= k < n && entries[..n][k].cve == cve && BandOf(entries[..n][k].score).Some?;
        assert entries[k] == entries[..n][k];
      } else {
        assert forall k :: 0 <= k < n ==> entries[k] == entries[..n][k];
      }
    }
  }

  /** The first band is the band of the first in-range entry of that CVE. */
  lemma {:induction false} FirstBandIsFirst(entries: seq<Entry>, cve: string, k: nat)
    requires k < |entries| && entries[k].cve == cve && BandOf(entries[k].score).Some?
    requires forall j :: 0 <= j < k && entries[j].cve == cve ==> BandOf(entries[j].score) == None
    ensures FirstBand(entries, cve) == BandOf(entries[k].score)
  {
    var n := |entries| - 1;
    if k < n {
      FirstBandIsFirst(entries[..n], cve, k);
    } else {
      ClassifiedIff(entries[..n], cve);
    }
  }

  ghost predicate Distinct(s: seq<string>) { forall j, k :: 0 <= j < k < |s| ==> s[j] != s[k] }

  lemma {:induction false} ClassifiedDistinct(entries: seq<Entry>)
    ensures Distinct(Classified(entries))
  {
    if entries != [] {
      ClassifiedDistinct(entries[..|entries| - 1]);
    }
  }

  // How an entry changes the parts.

  lemma {:induction false} InBandSame(e: seq<Entry>, f: seq<Entry>, cves: seq<string>, band: Band)
    requires forall c :: c in cves ==> FirstBand(e, c) == FirstBand(f, c)
    ensures InBand(e, cves, band) == InBand(f, cves, band)
  {
    if cves != [] {
      InBandSame(e, f, cves[..|cves| - 1], band);
    }
  }

  lemma EntryStep(e: seq<Entry>, x: Entry, band: Band)
    ensures var e', cves := e + [x], Classified(e);
            InBand(e', Classified(e'), band) ==
            InBand(e, cves, band) + if BandOf(x.score) == Some(band) && x.cve !in cves then [x.cve] else []
  {
    var e', cves := e + [x], Classified(e);
    assert e'[..|e|] == e;
    forall c | c in cves
      ensures FirstBand(e', c) == FirstBand(e, c)
    {
      ClassifiedIff(e, c);
    }
    InBandSame(e, e', cves, band);
    ClassifiedIff(e, x.cve);
    assert (cves + [x.cve])[..|cves|] == cves;
  }

  lemma {:induction false} InBandIff(e: seq<Entry>, cves: seq<string>, band: Band, cve: string)
    ensures cve in InBand(e, cves, band) <==> cve in cves && FirstBand(e, cve) == Some(band)
  {
    if cves != [] {
      InBandIff(e, cves[..|cves| - 1], band, cve);
    }
  }

  lemma ListedSomewhere(e: seq<Entry>, cve: string)
    ensures var l := Partition(e);
            cve in l.cves <==> cve in l.low || cve in l.medium || cve in l.high || cve in l.critical
  {
    var cves := Classified(e);
    ClassifiedIff(e, cve);
    InBandIff(e, cves, Low, cve);
    InBandIff(e, cves, Medium, cve);
    InBandIff(e, cves, High, cve);
    InBandIff(e, cves, Critical, cve);
    if FirstBand(e, cve).Some? {
      match FirstBand(e, cve).value
      case Low => case Medium => case High => case Critical =>
    }
  }

  // The nested loops

  // What one scored CVE adds.
  function Added(l: Lists, cve: string, band: Option<Band>): Lists {
    if band == None then l else
    var listed := cve in l.low || cve in l.medium || cve in l.high || cve in l.critical;
    var part := if listed then [] else [cve];
    var l' := l.(cves := l.cves + if cve in l.cves then [] else [cve]);
    match band.value
    case Low => l'.(low := l.low + part)
    case Medium => l'.(medium := l.medium + part)
    case High => l'.(high := l.high + part)
    case Critical => l'.(critical := l.critical + part)
  }

  lemma AddedByParts(l: Lists, l': Lists, c: string, band: Option<Band>)
    requires c in l.cves <==> c in l.low || c in l.medium || c in l.high || c in l.critical
    requires l'.low == l.low + if band == Some(Low) && c !in l.cves then [c] else []
    requires l'.medium == l.medium + if band == Some(Medium) && c !in l.cves then [c] else []
    requires l'.high == l.high + if band == Some(High) && c !in l.cves then [c] else []
    requires l'.critical == l.critical + if band == Some(Critical) && c !in l.cves then [c] else []
    requires l'.cves == l.cves + if band.Some? && c !in l.cves then [c] else []
    ensures l' == Added(l, c, band)
  {
  }

  lemma AddedIsPartition(e: seq<Entry>, x: Entry)
    ensures Partition(e + [x]) == Added(Partition(e), x.cve, BandOf(x.score))
  {
    ListedSomewhere(e, x.cve);
    EntryStep(e, x, Low);
    EntryStep(e, x, Medium);
    EntryStep(e, x, High);
    EntryStep(e, x, Critical);
    ClassifiedStep(e, x);
    AddedByParts(Partition(e), Partition(e + [x]), x.cve, BandOf(x.score));
  }

  lemma ClassifiedStep(e: seq<Entry>, x: Entry)
    ensures Classified(e + [x]) ==
            Classified(e) + if BandOf(x.score).Some? && x.cve !in Classified(e) then [x.cve] else []
  {
    assert (e + [x])[..|e|] == e;
  }

  lemma NoScoresStep(e: seq<Entry>, x: Entry)
    ensures NoScores(e + [x]) == NoScores(e) + if x.score == None then 1 else 0
  {
    assert (e + [x])[..|e|] == e;
  }

  method PlaceScore(before: Lists, cve: string, cvss: Option<real>) returns (l: Lists)
    ensures l == Added(before, cve, BandOf(cvss))
  {
    l := before;
    var listed := cve in l.low || cve in l.medium || cve in l.high || cve in l.critical;
    if cvss == None {
    } else if 0.1 <= cvss.value <= 3.9 {
      if !listed { l := l.(low := l.low + [cve]); }
      if cve !in l.cves { l := l.(cves := l.cves + [cve]); }
    } else if 4.0 <= cvss.value <= 6.9 {
      if !listed { l := l.(medium := l.medium + [cve]); }
      if cve !in l.cves { l := l.(cves := l.cves + [cve]); }
    } else if 7.0 <= cvss.value <= 8.9 {
      if !listed { l := l.(high := l.high + [cve]); }
      if cve !in l.cves { l := l.(cves := l.cves + [cve]); }
    } else if 9.0 <= cvss.value <= 10.0 {
      if !listed { l := l.(critical := l.critical + [cve]); }
      if cve !in l.cves { l := l.(cves := l.cves + [cve]); }
    }
  }

  // The scores of one report, taken after those of the entries.
  method AddScore(before: Lists, noneBefore: nat, cve: string, cvss: Option<real>, ghost entries: seq<Entry>)
    returns (l: Lists, noneCounter: nat)
    requires Reached(before, noneBefore, entries)
    ensures Reached(l, noneCounter, entries + [Entry(cve, cvss)])
  {
    AddedIsPartition(entries, Entry(cve, cvss));
    NoScoresStep(entries, Entry(cve, cvss));
    l := PlaceScore(before, cve, cvss);
    noneCounter := if cvss == None then noneBefore + 1 else noneBefore;
  }

  method ReportDistribution(before: Lists, noneBefore: nat, report: Report, ghost entries: seq<Entry>)
    returns (l: Lists, noneCounter: nat)
    requires |report.scores| <= |report.cves|
    requires Reached(before, noneBefore, entries)
    ensures Reached(l, noneCounter, entries + ReportEntries(report))
  {
    l, noneCounter := before, noneBefore;
    ghost var all := ReportEntries(report);
    ghost var sofar := entries;
    assert entries + all[..0] == entries;
    for index := 0 to |report.scores|
      invariant sofar == entries + all[..index]
      invariant Reached(l, noneCounter, sofar)
    {
      l, noneCounter := AddScore(l, noneCounter, report.cves[index], report.scores[index], sofar);
      sofar := sofar + [all[index]];
      EntriesOneMore(entries, all, index);
    }
    assert all[..|all|] == all;
  }

  lemma EntriesOneMore(entries: seq<Entry>, all: seq<Entry>, k: nat)
    requires k < |all|
    ensures entries + all[..k] + [all[k]] == entries + all[..k + 1]
  {
  }

  lemma EntriesStep(tools: seq<Tool>, k: nat)
    requires WellFormed(tools) && k < |tools|
    ensures Entries(tools[..k + 1]) ==
            Entries(tools[..k]) + if Skipped(tools[k]) then [] else ReportEntries(tools[k].report.value)
  {
    assert tools[..k + 1][..k] == tools[..k];
  }

  method RepositoryDistribution(tools: seq<Tool>) returns (l: Lists, noneCounter: nat)
    requires WellFormed(tools)
    ensures Reached(l, noneCounter, Entries(tools))
  {
    l, noneCounter := NOTHING, 0;
    ghost var sofar: seq<Entry> := [];
    for k := 0 to |tools|
      invariant sofar == Entries(tools[..k])
      invariant Reached(l, noneCounter, sofar)
    {
      EntriesStep(tools, k);
      if tools[k].report != None && tools[k].name != "Scantist.json" {
        l, noneCounter := ReportDistribution(l, noneCounter, tools[k].report.value, sofar);
        sofar := sofar + ReportEntries(tools[k].report.value);
      }
    }
    assert tools[..|tools|] == tools;
  }

  // The partition

  lemma {:induction false} InBandDistinct(e: seq<Entry>, cves: seq<string>, band: Band)
    requires Distinct(cves)
    ensures Distinct(InBand(e, cves, band))
  {
    if cves != [] {
      InBandIff(e, cves[..|cves| - 1], band, cves[|cves| - 1]);
      InBandDistinct(e, cves[..|cves| - 1], band);
    }
  }

  function Parts(e: seq<Entry>, cves: seq<string>): multiset<string> {
    multiset(InBand(e, cves, Low)) + multiset(InBand(e, cves, Medium)) +
    multiset(InBand(e, cves, High)) + multiset(InBand(e, cves, Critical))
  }

  lemma InBandStep(e: seq<Entry>, cves: seq<string>, c: string, band: Band)
    ensures InBand(e, cves + [c], band) == InBand(e, cves, band) + if FirstBand(e, c) == Some(band) then [c] else []
  {
    assert (cves + [c])[..|cves|] == cves;
  }

  lemma MultisetStep(a: seq<string>, b: seq<string>, c: seq<string>, d: seq<string>, x: string, band: Band)
    ensures multiset(a + if band == Low then [x] else []) + multiset(b + if band == Medium then [x] else []) +
            multiset(c + if band == High then [x] else []) + multiset(d + if band == Critical then [x] else []) ==
            multiset(a) + multiset(b) + multiset(c) + multiset(d) + multiset{x}
  {
    match band
    case Low => assert b + [] == b && c + [] == c && d + [] == d;
    case Medium => assert a + [] == a && c + [] == c && d + [] == d;
    case High => assert a + [] == a && b + [] == b && d + [] == d;
    case Critical => assert a + [] == a && b + [] == b && c + [] == c;
  }

  lemma PartsStep(e: seq<Entry>, cves: seq<string>, c: string)
    requires FirstBand(e, c).Some?
    ensures Parts(e, cves + [c]) == Parts(e, cves) + multiset{c}
  {
    InBandStep(e, cves, c, Low);
    InBandStep(e, cves, c, Medium);
    InBandStep(e, cves, c, High);
    InBandStep(e, cves, c, Critical);
    MultisetStep(InBand(e, cves, Low), InBand(e, cves, Medium), InBand(e, cves, High), InBand(e, cves, Critical),
                 c, FirstBand(e, c).value);
  }

  lemma {:induction false} PartsTogether(e: seq<Entry>, cves: seq<string>)
    requires forall c :: c in cves ==> FirstBand(e, c).Some?
    ensures Parts(e, cves) == multiset(cves)
  {
    if cves != [] {
      var n := |cves| - 1;
      assert cves == cves[..n] + [cves[n]];
      PartsTogether(e, cves[..n]);
      PartsStep(e, cves[..n], cves[n]);
    }
  }

  // The four lists of a repository are duplicate-free, pairwise disjoint and together its list of CVEs.
  lemma PartsAreDisjoint(e: seq<Entry>)
    ensures var l := Partition(e);
            && Distinct(l.low) && Distinct(l.medium) && Distinct(l.high) && Distinct(l.critical) && Distinct(l.cves)
            && multiset(l.low) + multiset(l.medium) + multiset(l.high) + multiset(l.critical) == multiset(l.cves)
            && Balanced(l)
  {
    var cves, l := Classified(e), Partition(e);
    ClassifiedDistinct(e);
    InBandDistinct(e, cves, Low);
    InBandDistinct(e, cves, Medium);
    InBandDistinct(e, cves, High);
    InBandDistinct(e, cves, Critical);
    forall c | c in cves
      ensures FirstBand(e, c).Some?
    {
      ClassifiedIff(e, c);
    }
    PartsTogether(e, cves);
    assert |multiset(l.low) + multiset(l.medium) + multiset(l.high) + multiset(l.critical)| == |multiset(l.cves)|;
  }

  // The sums over the repositories of a RIC

  function TotalCves(ls: seq<Lists>): nat {
    if ls == [] then 0 else |ls[0].low| + |ls[0].medium| + |ls[0].high| + |ls[0].critical| + TotalCves(ls[1..])
  }

  function VulnerabilitiesPerRepo(ls: seq<Lists>): seq<nat> { seq(|ls|, k requires 0 <= k < |ls| => |ls[k].cves|) }

  function Sum(s: seq<nat>): nat { if s == [] then 0 else s[0] + Sum(s[1..]) }

  function Listed(l: Lists, band: Band): seq<string> {
    match band
    case Low => l.low
    case Medium => l.medium
    case High => l.high
    case Critical => l.critical
  }

  function BandCounts(ls: seq<Lists>, band: Band): seq<nat> {
    seq(|ls|, k requires 0 <= k < |ls| => |Listed(ls[k], band)|)
  }

  function SeverityDistribution(ls: seq<Lists>, band: Band): nat { Sum(BandCounts(ls, band)) }

  function NoScoresPerRepo(repos: seq<seq<Tool>>): (missing: seq<nat>)
    requires AllWellFormed(repos)
    ensures |missing| == |repos|
  {
    seq(|repos|, r requires 0 <= r < |repos| => NoScores(Entries(repos[r])))
  }

  function Distributions(repos: seq<seq<Tool>>): (ls: seq<Lists>)
    requires AllWellFormed(repos)
    ensures |ls| == |repos|
  {
    seq(|repos|, r requires 0 <= r < |repos| => Partition(Entries(repos[r])))
  }

  method RicDistribution(repos: seq<seq<Tool>>) returns (ls: seq<Lists>, noneCounter: nat)
    requires AllWellFormed(repos)
    ensures ls == Distributions(repos) && noneCounter == Sum(NoScoresPerRepo(repos))
  {
    ls, noneCounter := [], 0;
    for r := 0 to |repos|
      invariant ls == Distributions(repos)[..r] && noneCounter == Sum(NoScoresPerRepo(repos)[..r])
    {
      var l, none := RepositoryDistribution(repos[r]);
      RepositoryStep(repos, r);
      ls, noneCounter := ls + [l], noneCounter + none;
    }
    assert Distributions(repos)[..|repos|] == Distributions(repos);
    assert NoScoresPerRepo(repos)[..|repos|] == NoScoresPerRepo(repos);
  }

  /** The nested loops over every RIC, each of its repositories and every report. */
  method CvssDistribution(rics: seq<seq<seq<Tool>>>) returns (all: seq<seq<Lists>>, noneCounter: nat)
    requires forall n :: 0 <= n < |rics| ==> AllWellFormed(rics[n])
    ensures all == RicDistributions(rics)
    ensures noneCounter == Sum(NoScoresPerRic(rics))
  {
    all, noneCounter := [], 0;
    for n := 0 to |rics|
      invariant all == RicDistributions(rics)[..n] && noneCounter == Sum(NoScoresPerRic(rics)[..n])
    {
      var ls, none := RicDistribution(rics[n]);
      RicStep(rics, n);
      all, noneCounter := all + [ls], noneCounter + none;
    }
    assert RicDistributions(rics)[..|rics|] == RicDistributions(rics);
    assert NoScoresPerRic(rics)[..|rics|] == NoScoresPerRic(rics);
  }

  function RicDistributions(rics: seq<seq<seq<Tool>>>): (all: seq<seq<Lists>>)
    requires forall n :: 0 <= n < |rics| ==> AllWellFormed(rics[n])
    ensures |all| == |rics|
  {
    seq(|rics|, n requires 0 <= n < |rics| => Distributions(rics[n]))
  }

  lemma RicStep(rics: seq<seq<seq<Tool>>>, n: nat)
    requires n < |rics| && forall m :: 0 <= m < |rics| ==> AllWellFormed(rics[m])
    ensures RicDistributions(rics)[..n + 1] == RicDistributions(rics)[..n] + [Distributions(rics[n])]
    ensures Sum(NoScoresPerRic(rics)[..n + 1]) == Sum(NoScoresPerRic(rics)[..n]) + Sum(NoScoresPerRepo(rics[n]))
  {
    OneMore(RicDistributions(rics), n);
    OneMore(NoScoresPerRic(rics), n);
    SumGrows(NoScoresPerRic(rics)[..n], NoScoresPerRic(rics)[n]);
  }

  predicate AllWellFormed(repos: seq<seq<Tool>>) { forall r :: 0 <= r < |repos| ==> WellFormed(repos[r]) }

  function NoScoresPerRic(rics: seq<seq<seq<Tool>>>): (missing: seq<nat>)
    requires forall n :: 0 <= n < |rics| ==> AllWellFormed(rics[n])
    ensures |missing| == |rics|
  {
    seq(|rics|, n requires 0 <= n < |rics| => Sum(NoScoresPerRepo(rics[n])))
  }

  lemma RepositoryStep(repos: seq<seq<Tool>>, r: nat)
    requires r < |repos| && AllWellFormed(repos)
    ensures Distributions(repos)[..r + 1] == Distributions(repos)[..r] + [Partition(Entries(repos[r]))]
    ensures Sum(NoScoresPerRepo(repos)[..r + 1]) == Sum(NoScoresPerRepo(repos)[..r]) + NoScores(Entries(repos[r]))
  {
    OneMore(Distributions(repos), r);
    OneMore(NoScoresPerRepo(repos), r);
    SumGrows(NoScoresPerRepo(repos)[..r], NoScoresPerRepo(repos)[r]);
  }

  lemma OneMore<T>(s: seq<T>, k: nat)
    requires k < |s|
    ensures s[..k + 1] == s[..k] + [s[k]]
  {
  }

  lemma {:induction false} SumGrows(s: seq<nat>, x: nat)
    ensures Sum(s + [x]) == Sum(s) + x
  {
    if s == [] {
      assert [x][1..] == [];
    } else {
      SumGrows(s[1..], x);
      assert (s + [x])[1..] == s[1..] + [x];
    }
  }

  /** The total of a RIC, the sum of its per-repository counts and the sum of its severity counts agree. */
  lemma TotalsAgree(repos: seq<seq<Tool>>)
    requires AllWellFormed(repos)
    ensures var ls := Distributions(repos);
            && TotalCves(ls) == Sum(VulnerabilitiesPerRepo(ls))
            && TotalCves(ls) == SeverityDistribution(ls, Low) + SeverityDistribution(ls, Medium) +
                                SeverityDistribution(ls, High) + SeverityDistribution(ls, Critical)
  {
    var ls := Distributions(repos);
    forall r | 0 <= r < |ls|
      ensures Balanced(ls[r])
    {
      PartsAreDisjoint(Entries(repos[r]));
    }
    SumsAgree(ls);
  }

  predicate Balanced(l: Lists) { |l.low| + |l.medium| + |l.high| + |l.critical| == |l.cves| }

  lemma {:induction false} SumsAgree(ls: seq<Lists>)
    requires forall r :: 0 <= r < |ls| ==> Balanced(ls[r])
    ensures TotalCves(ls) == Sum(VulnerabilitiesPerRepo(ls))
    ensures TotalCves(ls) == SeverityDistribution(ls, Low) + SeverityDistribution(ls, Medium) +
                             SeverityDistribution(ls, High) + SeverityDistribution(ls, Critical)
  {
    if ls != [] {
      assert Balanced(ls[0]);
      SumsAgree(ls[1..]);
      assert VulnerabilitiesPerRepo(ls)[1..] == VulnerabilitiesPerRepo(ls[1..]);
      assert BandCounts(ls, Low)[1..] == BandCounts(ls[1..], Low);
      assert BandCounts(ls, Medium)[1..] == BandCounts(ls[1..], Medium);
      assert BandCounts(ls, High)[1..] == BandCounts(ls[1..], High);
      assert BandCounts(ls, Critical)[1..] == BandCounts(ls[1..], Critical);
    }
  }
}
