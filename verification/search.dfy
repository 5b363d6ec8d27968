/** The donor search: active donors are filed into the blood-group tree,
    the requested group is looked up, each match gets its distance from the
    requester, the matches are ranked by distance and shown page by page. */
module Search {
  import opened Donors
  import opened BloodGroupTree
  import opened Ranking
  import opened Pagination

  /** The donors the search starts from: the active ones, in table order. */
  function ActiveDonors(ds: seq<Donor>): (r: seq<Donor>)
    ensures forall x :: x in r <==> x in ds && x.isActive
    ensures |r| <= |ds|
    decreases |ds|
  {
    if |ds| == 0 then []
    else (if ds[0].isActive then [ds[0]] else []) + ActiveDonors(ds[1..])
  }

  /** Pairs each donor with its distance from the requester; `distanceTo`
      stands for the great-circle distance from the requester's coordinates. */
  function WithDistances(ds: seq<Donor>, distanceTo: (real, real) -> real): seq<Match> {
    seq(|ds|, i requires 0 <= i < |ds| =>
      Match(ds[i], distanceTo(ds[i].profile.latitude, ds[i].profile.longitude)))
  }

  /** The donors of a list of matches, in order. */
  function DonorsOf(ms: seq<Match>): seq<Donor> {
    seq(|ms|, i requires 0 <= i < |ms| => ms[i].donor)
  }

  /** Attaching distances loses and reorders nothing: projecting the donors
      back out gives the input, and each match's distance is the one from the
      requester to that match's own donor. */
  lemma DistancesRoundTrip(ds: seq<Donor>, distanceTo: (real, real) -> real)
    ensures DonorsOf(WithDistances(ds, distanceTo)) == ds
    ensures forall m | m in WithDistances(ds, distanceTo) ::
      m.donor in ds && m.distance == distanceTo(m.donor.profile.latitude, m.donor.profile.longitude)
  {
  }

  /** The candidates before ranking: active donors of the requested group
      with their distances, in table order. */
  function Candidates(donors: seq<Donor>, group: string, distanceTo: (real, real) -> real): seq<Match> {
    WithDistances(Matching(ActiveDonors(donors), group), distanceTo)
  }

  datatype SearchResult = NoDonors | Found(ranked: seq<Match>)

  /** Finds and ranks the active donors of `group`. An empty lookup is
      reported as `NoDonors`, which is a result and not an error. */
  method SearchDonors(donors: seq<Donor>, group: string, distanceTo: (real, real) -> real) returns (r: SearchResult)
    ensures r.NoDonors? <==> forall x | x in donors :: !(x.isActive && x.profile.bloodGroup == group && IsIndexed(group))
    ensures r.Found? ==> |r.ranked| > 0
    ensures r.Found? ==> forall m | m in r.ranked ::
      && m.donor in donors && m.donor.isActive && m.donor.profile.bloodGroup == group
      && m.distance == distanceTo(m.donor.profile.latitude, m.donor.profile.longitude)
    ensures r.Found? ==> SortedByDistance(r.ranked)
    ensures r.Found? ==> multiset(r.ranked) == multiset(Candidates(donors, group, distanceTo))
    ensures r.Found? ==> Stable(Candidates(donors, group, distanceTo), r.ranked)
  {
    var active := ActiveDonors(donors);
    var tree := Build(active);
    var matching := Lookup(tree, group);
    LookupIsFilter(active, group);
    if |matching| == 0 {
      forall x | x in donors && x.isActive && x.profile.bloodGroup == group && IsIndexed(group)
        ensures false
      {
        MatchingComplete(active, group, x);
      }
      return NoDonors;
    }
    assert matching[0] in matching;
    var ms := WithDistances(matching, distanceTo);
    var ranked := RankByDistance(ms);
    forall m | m in ranked
      ensures m.donor in donors && m.donor.isActive && m.donor.profile.bloodGroup == group
      ensures m.distance == distanceTo(m.donor.profile.latitude, m.donor.profile.longitude)
    {
      assert m in multiset(ms);
      var i :| 0 <= i < |ms| && ms[i] == m;
      assert matching[i] in matching;
    }
    r := Found(ranked);
  }

  /** Every donor of the requested group is in the filter. */
  lemma {:induction false} MatchingComplete(ds: seq<Donor>, q: string, x: Donor)
    requires x in ds && x.profile.bloodGroup == q && IsIndexed(q)
    ensures x in Matching(ds, q)
    decreases |ds|
  {
    if ds[0] != x {
      MatchingComplete(ds[1..], q, x);
    }
  }

  datatype Session =
    | NothingFound
    | Browsed(ranked: seq<Match>, pages: seq<seq<Match>>, ending: Ending)

  /** The user's answers as paging commands. */
  function Commands(answers: seq<string>): seq<Command> {
    seq(|answers|, i requires 0 <= i < |answers| => Classify(answers[i]))
  }

  /** The paging loop keeps going for exactly the answers at the front that
      read "more" once stripped and lower-cased. */
  lemma {:induction false} LeadingMoreAnswers(answers: seq<string>)
    ensures LeadingMores(Commands(answers)) <= |answers|
    ensures forall j | 0 <= j < LeadingMores(Commands(answers)) :: IsMoreAnswer(answers[j])
    ensures LeadingMores(Commands(answers)) < |answers| ==>
      !IsMoreAnswer(answers[LeadingMores(Commands(answers))])
  {
    var cmds := Commands(answers);
    var m := LeadingMores(cmds);
    forall j | 0 <= j < m ensures IsMoreAnswer(answers[j]) {
      assert cmds[j] == More;
    }
    if m < |answers| {
      assert cmds[m] != More;
    }
  }

  /** Each page shown is the window of the ranked list the page formula gives. */
  predicate PagesOf(ranked: seq<Match>, pages: seq<seq<Match>>) {
    forall j | 0 <= j < |pages| ::
      && PageWindow(j, |ranked|).lo < PageWindow(j, |ranked|).hi <= |ranked|
      && pages[j] == ranked[PageWindow(j, |ranked|).lo .. PageWindow(j, |ranked|).hi]
  }

  /** The pages shown for a ranked list while answering with `cmds` in turn. */
  method ShowPages(ranked: seq<Match>, cmds: seq<Command>) returns (pages: seq<seq<Match>>, ending: Ending)
    ensures |pages| == Min(LeadingMores(cmds) + 1, PageCount(|ranked|))
    ensures PagesOf(ranked, pages)
    ensures StopsAs(|ranked|, cmds, ending)
  {
    var windows;
    windows, ending := Paginate(|ranked|, cmds);
    pages := seq(|windows|, j requires 0 <= j < |windows| => ranked[windows[j].lo .. windows[j].hi]);
  }

  /** A whole search as the user sees it: the ranked matches and the pages
      shown while answering with `answers` in turn. */
  method SearchSession(donors: seq<Donor>, group: string, distanceTo: (real, real) -> real, answers: seq<string>)
    returns (s: Session)
    ensures s.NothingFound? <==> forall x | x in donors :: !(x.isActive && x.profile.bloodGroup == group && IsIndexed(group))
    ensures s.Browsed? ==> SortedByDistance(s.ranked)
    ensures s.Browsed? ==> Stable(Candidates(donors, group, distanceTo), s.ranked)
    ensures s.Browsed? ==> |s.pages| == Min(LeadingMores(Commands(answers)) + 1, PageCount(|s.ranked|))
    ensures s.Browsed? ==> PagesOf(s.ranked, s.pages)
    ensures s.Browsed? ==> StopsAs(|s.ranked|, Commands(answers), s.ending)
  {
    var result := SearchDonors(donors, group, distanceTo);
    if result.NoDonors? {
      return NothingFound;
    }
    var pages, ending := ShowPages(result.ranked, Commands(answers));
    s := Browsed(result.ranked, pages, ending);
  }
}
