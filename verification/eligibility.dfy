/** The eligibility engine: registration defaults, recording a donation
    under the lifetime cap and the cooldown, and the reactivation scan. The
    database becomes an in-memory registry with append-only donation and
    history logs; the wall clock becomes a `today` parameter. */
module Eligibility {
  import opened Wrappers
  import opened Donors

  datatype Registry = Registry(donors: seq<Donor>, donations: seq<Donation>, history: seq<HistoryEntry>)

  const Empty: Registry := Registry([], [], [])

  /** Ids are assigned by auto-increment and rows are never deleted, so the
      donor at position i has id i + 1. */
  predicate WellNumbered(reg: Registry) {
    forall i | 0 <= i < |reg.donors| :: reg.donors[i].id == i + 1
  }

  /** The row a lookup by id returns: the first donor carrying that id. */
  function FindDonor(ds: seq<Donor>, id: int): (r: Option<nat>)
    ensures r.None? <==> forall i | 0 <= i < |ds| :: ds[i].id != id
    ensures r.Some? ==> r.value < |ds| && ds[r.value].id == id
    ensures r.Some? ==> forall j | 0 <= j < r.value :: ds[j].id != id
    decreases |ds|
  {
    if |ds| == 0 then None
    else if ds[0].id == id then Some(0)
    else match FindDonor(ds[1..], id)
      case None => None
      case Some(k) => Some(k + 1)
  }

  /** In a well-numbered registry the lookup resolves exactly the ids 1..n. */
  lemma FindWellNumbered(reg: Registry, id: int)
    requires WellNumbered(reg)
    ensures FindDonor(reg.donors, id) == if 1 <= id <= |reg.donors| then Some(id - 1) else None
  {
    if 1 <= id <= |reg.donors| {
      assert reg.donors[id - 1].id == id;
    }
  }

  // Registration

  datatype Registration = Registration(registry: Registry, id: nat)

  /** Inserts a donor with the registration defaults: no donations, no last
      donation date, active. Nothing is written to the history. */
  function Register(reg: Registry, p: Profile): (r: Registration)
    ensures |r.registry.donors| == |reg.donors| + 1
    ensures r.registry.donors[..|reg.donors|] == reg.donors
    ensures r.registry.donors[|reg.donors|] == NewDonor(r.id, p)
    ensures r.registry.donations == reg.donations && r.registry.history == reg.history
    ensures WellNumbered(reg) ==> WellNumbered(r.registry)
    ensures WellNumbered(reg) ==> FindDonor(reg.donors, r.id).None?
  {
    var id := |reg.donors| + 1;
    Registration(reg.(donors := reg.donors + [NewDonor(id, p)]), id)
  }

  // Recording a donation

  /** No last donation, or at least the cooldown since it (a date before the
      last donation gives a negative difference and fails). */
  predicate CooldownOver(last: Option<Date>, date: Date) {
    last.None? || date - last.value >= CooldownDays
  }

  /** The eligibility rule for a donation on `date`. */
  predicate MayDonate(d: Donor, date: Date) {
    d.totalDonations < LifetimeCap && CooldownOver(d.lastDonation, date)
  }

  datatype Rejection = NotFound | LifetimeLimit | Cooldown

  datatype Outcome = Rejected(why: Rejection) | Recorded(registry: Registry)

  /** What a successful donation does to a registry: the donor at position
      `i` gains one donation, its last donation becomes `date`, it turns
      inactive; one donation row and one "inactive" history row are appended;
      nothing else changes. */
  predicate DonationApplied(before: Registry, after: Registry, i: nat, date: Date, location: string) {
    && i < |before.donors| == |after.donors|
    && (forall j | 0 <= j < |before.donors| && j != i :: after.donors[j] == before.donors[j])
    && var d, d' := before.donors[i], after.donors[i];
       && d'.id == d.id && d'.profile == d.profile
       && d'.totalDonations == d.totalDonations + 1
       && d'.lastDonation == Some(date)
       && !d'.isActive
       && after.donations == before.donations + [Donation(d.id, date, location)]
       && after.history == before.history + [HistoryEntry(d.id, d.profile.name, Inactive, date)]
  }

  /** Records a donation. The lifetime cap is checked before the cooldown;
      the donor's activity flag is never consulted. After a donation the
      donor is inactive whatever the new total, so the history always
      records "inactive". */
  function RecordDonation(reg: Registry, id: int, date: Date, location: string): (r: Outcome)
    ensures FindDonor(reg.donors, id).None? ==> r == Rejected(NotFound)
    ensures FindDonor(reg.donors, id).Some? ==>
      var i := FindDonor(reg.donors, id).value;
      var d := reg.donors[i];
      && (d.totalDonations >= LifetimeCap ==> r == Rejected(LifetimeLimit))
      && (d.totalDonations < LifetimeCap && !CooldownOver(d.lastDonation, date) ==> r == Rejected(Cooldown))
      && (r.Recorded? <==> MayDonate(d, date))
      && (r.Recorded? ==> DonationApplied(reg, r.registry, i, date, location))
  {
    match FindDonor(reg.donors, id)
    case None => Rejected(NotFound)
    case Some(i) =>
      var d := reg.donors[i];
      if d.totalDonations >= LifetimeCap then Rejected(LifetimeLimit)
      else if d.lastDonation.Some? && date - d.lastDonation.value < CooldownDays then Rejected(Cooldown)
      else
        var total := d.totalDonations + 1;
        var active := if total >= LifetimeCap then false else false;
        var d' := d.(totalDonations := total, lastDonation := Some(date), isActive := active);
        var status := if !active then Inactive else Active;
        Recorded(Registry(
          reg.donors[i := d'],
          reg.donations + [Donation(id, date, location)],
          reg.history + [HistoryEntry(id, d.profile.name, status, date)]))
  }

  /** The id is read as any integer. Rows carry ids of at least 1, so a
      negative or zero id is never found and the donation is refused as such. */
  lemma NonPositiveIdNotFound(reg: Registry, id: int, date: Date, location: string)
    requires WellNumbered(reg) && id <= 0
    ensures RecordDonation(reg, id, date, location) == Rejected(NotFound)
  {
    FindWellNumbered(reg, id);
  }

  // Reactivation

  /** The rows the scan selects (inactive, below the cap) that also have a
      last donation at least the cooldown before `today`. */
  predicate Reactivatable(d: Donor, today: Date) {
    && !d.isActive
    && d.totalDonations < LifetimeCap
    && d.lastDonation.Some?
    && today - d.lastDonation.value >= CooldownDays
  }

  function ReactivateEach(ds: seq<Donor>, today: Date): (r: seq<Donor>)
    ensures |r| == |ds|
    ensures forall i | 0 <= i < |ds| ::
      r[i] == if Reactivatable(ds[i], today) then ds[i].(isActive := true) else ds[i]
    decreases |ds|
  {
    if |ds| == 0 then []
    else
      var d := ds[0];
      var rest := ReactivateEach(ds[1..], today);
      [if Reactivatable(d, today) then d.(isActive := true) else d] + rest
  }

  /** The history rows the scan appends: one "active" row per reactivated
      donor, in table order. */
  function Activations(ds: seq<Donor>, today: Date): (r: seq<HistoryEntry>)
    ensures forall k | 0 <= k < |r| :: r[k].status == Active && r[k].date == today
    decreases |ds|
  {
    if |ds| == 0 then []
    else
      (if Reactivatable(ds[0], today) then [HistoryEntry(ds[0].id, ds[0].profile.name, Active, today)] else [])
      + Activations(ds[1..], today)
  }

  /** Every row the scan appends names a reactivated donor, by id and name. */
  lemma {:induction false} ActivationsNameReactivated(ds: seq<Donor>, today: Date)
    ensures forall k | 0 <= k < |Activations(ds, today)| ::
      exists i | 0 <= i < |ds| ::
        && Reactivatable(ds[i], today)
        && Activations(ds, today)[k] == HistoryEntry(ds[i].id, ds[i].profile.name, Active, today)
    decreases |ds|
  {
    if |ds| > 0 {
      var r := Activations(ds, today);
      var head := if Reactivatable(ds[0], today) then [HistoryEntry(ds[0].id, ds[0].profile.name, Active, today)] else [];
      var rest := Activations(ds[1..], today);
      ActivationsNameReactivated(ds[1..], today);
      assert r == head + rest;
      forall k | 0 <= k < |r|
        ensures exists i | 0 <= i < |ds| ::
          && Reactivatable(ds[i], today)
          && r[k] == HistoryEntry(ds[i].id, ds[i].profile.name, Active, today)
      {
        if k < |head| {
          assert Reactivatable(ds[0], today)
            && r[k] == HistoryEntry(ds[0].id, ds[0].profile.name, Active, today);
        } else {
          assert r[k] == rest[k - |head|];
          var j :| 0 <= j < |ds[1..]| && Reactivatable(ds[1..][j], today)
            && rest[k - |head|] == HistoryEntry(ds[1..][j].id, ds[1..][j].profile.name, Active, today);
          assert ds[1..][j] == ds[j + 1];
        }
      }
    } else {
      assert Activations(ds, today) == [];
    }
  }

  /** The positions the scan reactivates. */
  function ReactivatedPositions(ds: seq<Donor>, today: Date): set<nat> {
    set i: nat | i < |ds| && Reactivatable(ds[i], today)
  }

  datatype Reactivation = Reactivation(registry: Registry, count: nat)

  /** Reactivates every eligible donor as of `today` and reports how many. */
  function Reactivate(reg: Registry, today: Date): (r: Reactivation)
    ensures |r.registry.donors| == |reg.donors|
    ensures forall i | 0 <= i < |reg.donors| ::
      r.registry.donors[i] ==
        if Reactivatable(reg.donors[i], today) then reg.donors[i].(isActive := true) else reg.donors[i]
    ensures r.registry.donations == reg.donations
    ensures r.registry.history == reg.history + Activations(reg.donors, today)
    ensures r.count == |ReactivatedPositions(reg.donors, today)|
  {
    var entries := Activations(reg.donors, today);
    ActivationsCount(reg.donors, today, |reg.donors|);
    assert reg.donors[..|reg.donors|] == reg.donors;
    Reactivation(Registry(ReactivateEach(reg.donors, today), reg.donations, reg.history + entries), |entries|)
  }

  lemma {:induction false} ActivationsAppend(a: seq<Donor>, b: seq<Donor>, today: Date)
    ensures Activations(a + b, today) == Activations(a, today) + Activations(b, today)
    decreases |a|
  {
    if |a| > 0 {
      assert (a + b)[1..] == a[1..] + b;
      ActivationsAppend(a[1..], b, today);
    } else {
      assert a + b == b;
    }
  }

  /** One history row per reactivated position. */
  lemma {:induction false} ActivationsCount(ds: seq<Donor>, today: Date, n: nat)
    requires n <= |ds|
    ensures |Activations(ds[..n], today)| == |set i: nat | i < n && Reactivatable(ds[i], today)|
    decreases n
  {
    if n > 0 {
      ActivationsCount(ds, today, n - 1);
      assert ds[..n] == ds[..n - 1] + [ds[n - 1]];
      ActivationsAppend(ds[..n - 1], [ds[n - 1]], today);
      var before := set i: nat | i < n - 1 && Reactivatable(ds[i], today);
      var after := set i: nat | i < n && Reactivatable(ds[i], today);
      if Reactivatable(ds[n - 1], today) {
        assert after == before + {n - 1};
      } else {
        assert after == before;
      }
    }
  }

  // Runs of operations

  datatype Op =
    | RegisterOp(profile: Profile)
    | RecordOp(id: int, date: Date, location: string)
    | ReactivateOp(today: Date)

  /** One business operation; a rejected donation leaves the registry as it was. */
  function Apply(reg: Registry, op: Op): Registry {
    match op
    case RegisterOp(p) => Register(reg, p).registry
    case RecordOp(id, date, location) =>
      (match RecordDonation(reg, id, date, location)
       case Recorded(r) => r
       case Rejected(_) => reg)
    case ReactivateOp(today) => Reactivate(reg, today).registry
  }

  function Run(reg: Registry, ops: seq<Op>): Registry
    decreases |ops|
  {
    if |ops| == 0 then reg else Run(Apply(reg, ops[0]), ops[1..])
  }

  /** No donor exceeds the lifetime cap, and a donor at the cap is inactive. */
  predicate WithinCap(reg: Registry) {
    forall i | 0 <= i < |reg.donors| ::
      reg.donors[i].totalDonations <= LifetimeCap
      && (reg.donors[i].totalDonations == LifetimeCap ==> !reg.donors[i].isActive)
  }

  lemma ApplyKeepsCap(reg: Registry, op: Op)
    requires WithinCap(reg)
    ensures WithinCap(Apply(reg, op))
  {
    if op.RecordOp? {
      var r := RecordDonation(reg, op.id, op.date, op.location);
      if r.Recorded? {
        var i := FindDonor(reg.donors, op.id).value;
        assert DonationApplied(reg, r.registry, i, op.date, op.location);
      }
    }
  }

  lemma {:induction false} RunKeepsCap(reg: Registry, ops: seq<Op>)
    requires WithinCap(reg)
    ensures WithinCap(Run(reg, ops))
    decreases |ops|
  {
    if |ops| > 0 {
      ApplyKeepsCap(reg, ops[0]);
      RunKeepsCap(Apply(reg, ops[0]), ops[1..]);
    }
  }

  /** From an empty registry, no sequence of registrations, donations and
      reactivations takes any donor past five donations or reactivates a
      donor at the cap. */
  lemma CapInvariant(ops: seq<Op>)
    ensures WithinCap(Run(Empty, ops))
  {
    RunKeepsCap(Empty, ops);
  }

  lemma {:induction false} RunKeepsNumbering(reg: Registry, ops: seq<Op>)
    requires WellNumbered(reg)
    ensures WellNumbered(Run(reg, ops))
    decreases |ops|
  {
    if |ops| > 0 {
      var next := Apply(reg, ops[0]);
      if ops[0].RecordOp? {
        var r := RecordDonation(reg, ops[0].id, ops[0].date, ops[0].location);
        if r.Recorded? {
          assert DonationApplied(reg, r.registry, FindDonor(reg.donors, ops[0].id).value, ops[0].date, ops[0].location);
        }
      }
      assert WellNumbered(next);
      RunKeepsNumbering(next, ops[1..]);
    }
  }

  /** A donor at the cap is retired for good: every later operation leaves
      its row exactly as it is. */
  lemma {:induction false} RetiredDonorUnchanged(reg: Registry, ops: seq<Op>, i: nat)
    requires i < |reg.donors| && reg.donors[i].totalDonations >= LifetimeCap
    ensures i < |Run(reg, ops).donors| && Run(reg, ops).donors[i] == reg.donors[i]
    decreases |ops|
  {
    if |ops| > 0 {
      var next := Apply(reg, ops[0]);
      if ops[0].RegisterOp? {
        assert Register(reg, ops[0].profile).registry.donors[..|reg.donors|] == reg.donors;
        assert next.donors[i] == reg.donors[i];
      } else if ops[0].RecordOp? {
        var r := RecordDonation(reg, ops[0].id, ops[0].date, ops[0].location);
        if r.Recorded? {
          var k := FindDonor(reg.donors, ops[0].id).value;
          assert k != i;
          assert DonationApplied(reg, r.registry, k, ops[0].date, ops[0].location);
        }
      }
      RetiredDonorUnchanged(next, ops[1..], i);
    }
  }

  /** After a successful donation the same donor is turned away until the
      cooldown has passed: any second donation dated less than 90 days after
      the first is rejected. */
  lemma SecondDonationWithinCooldown(reg: Registry, id: int, date: Date, location: string, date2: Date, location2: string)
    requires RecordDonation(reg, id, date, location).Recorded?
    requires date2 - date < CooldownDays
    ensures RecordDonation(RecordDonation(reg, id, date, location).registry, id, date2, location2).Rejected?
  {
    var i := FindDonor(reg.donors, id).value;
    var after := RecordDonation(reg, id, date, location).registry;
    assert DonationApplied(reg, after, i, date, location);
    assert FindDonor(after.donors, id) == Some(i);
  }

  /** A donation followed, at least 90 days later, by the reactivation scan
      makes a donor below the cap active again (one "active" history row is
      among those appended). */
  lemma DonateThenReactivate(reg: Registry, id: int, date: Date, location: string, today: Date)
    requires RecordDonation(reg, id, date, location).Recorded?
    requires today - date >= CooldownDays
    requires reg.donors[FindDonor(reg.donors, id).value].totalDonations + 1 < LifetimeCap
    ensures
      var after := RecordDonation(reg, id, date, location).registry;
      var i := FindDonor(reg.donors, id).value;
      && Reactivate(after, today).registry.donors[i].isActive
      && Reactivate(after, today).count >= 1
  {
    var after := RecordDonation(reg, id, date, location).registry;
    var i := FindDonor(reg.donors, id).value;
    assert DonationApplied(reg, after, i, date, location);
    assert Reactivatable(after.donors[i], today);
    assert i in ReactivatedPositions(after.donors, today);
  }
}
