/** Records kept by the donor registry: donors, donations and the
    activity-history audit trail, plus the constants of the eligibility rules. */
module Donors {
  import opened Wrappers

  /** A calendar date as a day number; differences are whole days. */
  type Date = int

  /** Lifetime maximum number of donations per donor. */
  const LifetimeCap: nat := 5

  /** Minimum number of days between two donations, and between a donation
      and reactivation. */
  const CooldownDays: nat := 90

  /** What a donor supplies at registration; never changed afterwards. */
  datatype Profile = Profile(
    name: string,
    age: int,
    gender: string,
    city: string,
    state: string,
    bloodGroup: string,
    latitude: real,
    longitude: real)

  /** A row of the donors table. */
  datatype Donor = Donor(
    id: nat,
    profile: Profile,
    totalDonations: nat,
    lastDonation: Option<Date>,
    isActive: bool)

  /** A row of the donations table (append-only). */
  datatype Donation = Donation(donorId: nat, date: Date, location: string)

  datatype Status = Active | Inactive

  /** A row of the donor_history table (append-only); `name` is a snapshot. */
  datatype HistoryEntry = HistoryEntry(donorId: nat, name: string, status: Status, date: Date)

  /** A freshly registered donor: no donations yet, no last donation, active. */
  function NewDonor(id: nat, p: Profile): (d: Donor)
    ensures d.id == id && d.profile == p
    ensures d.totalDonations == 0 && d.lastDonation == None && d.isActive
  {
    Donor(id, p, 0, None, true)
  }
}
