/** The RIDs of the accounts that provisioning creates. */
module WellKnownRids {
  const ADMINISTRATOR_RID: nat := 500
  const KRBTGT_RID: nat := 502
}
