/** The subscription service: the thirty-day trial counted from the first
    launch, the status assembled from the billing SDK's customer record, the
    access decision, and the mapping of purchase and restore outcomes. The
    SDK's answers and the clock are inputs. */
module Subscription {
  import opened Wrappers

  const TrialDays: int := 30

  /** `1000 * 60 * 60 * 24`. */
  const MsPerDay: int := 86400000

  const LifetimeEntitlement: string := "lifetime"
  const MonthlyEntitlement: string := "monthly"

  // ---------------------------------------------------------------------
  // The trial.

  datatype TrialStatus = TrialStatus(isInTrial: bool, daysRemaining: int)

  /** `Math.floor(elapsed / MsPerDay)`: whole days since the first launch,
      rounded down (also for a clock that is behind the first launch). */
  function DaysSince(first: int, now: int): (d: int)
    ensures d * MsPerDay <= now - first < (d + 1) * MsPerDay
  {
    (now - first) / MsPerDay
  }

  /** `calculateTrialStatus`: with no recorded first launch the whole trial
      remains; otherwise thirty days minus the whole days elapsed, never
      below zero. The first launch is the stored timestamp, in milliseconds. */
  function CalculateTrialStatus(firstLaunch: Option<int>, now: int): (t: TrialStatus)
    ensures firstLaunch.None? ==> t == TrialStatus(true, TrialDays)
    ensures t.daysRemaining >= 0
    ensures t.isInTrial <==> t.daysRemaining > 0
    ensures firstLaunch.Some? && now >= firstLaunch.value ==> t.daysRemaining <= TrialDays
    ensures firstLaunch.Some? ==> (t.isInTrial <==> now - firstLaunch.value < TrialDays * MsPerDay)
    ensures firstLaunch.Some? && t.isInTrial ==>
              (TrialDays - t.daysRemaining) * MsPerDay <= now - firstLaunch.value
              < (TrialDays - t.daysRemaining + 1) * MsPerDay
  {
    match firstLaunch
    case None => TrialStatus(true, TrialDays)
    case Some(first) =>
      var remaining := Max(0, TrialDays - DaysSince(first, now));
      TrialStatus(remaining > 0, remaining)
  }

  /** As the clock advances the remaining days never grow. */
  lemma TrialCountsDown(first: int, now: int, later: int)
    requires now <= later
    ensures CalculateTrialStatus(Some(first), later).daysRemaining <= CalculateTrialStatus(Some(first), now).daysRemaining
  {
  }

  /** On the day of the first launch the full thirty days remain; from day
      thirty on, none. */
  lemma TrialEdges(first: int)
    ensures CalculateTrialStatus(Some(first), first) == TrialStatus(true, TrialDays)
    ensures CalculateTrialStatus(Some(first), first + TrialDays * MsPerDay - 1) == TrialStatus(true, 1)
    ensures CalculateTrialStatus(Some(first), first + TrialDays * MsPerDay) == TrialStatus(false, 0)
  {
  }

  // ---------------------------------------------------------------------
  // The status.

  /** An active entitlement, with the expiry the SDK reports for it. */
  datatype Entitlement = Entitlement(expirationDate: Option<string>)

  /** The part of the SDK's customer record the app reads:
      `entitlements.active`, by entitlement name. */
  datatype CustomerInfo = CustomerInfo(active: map<string, Entitlement>)

  predicate Entitled(info: CustomerInfo) {
    LifetimeEntitlement in info.active || MonthlyEntitlement in info.active
  }

  datatype SubscriptionStatus = SubscriptionStatus(
    isSubscribed: bool,
    isLifetime: bool,
    isMonthly: bool,
    isInTrial: bool,
    trialDaysRemaining: int,
    expirationDate: Option<string>)

  /** `getSubscriptionStatus`: `info` is the customer record, or `None` when
      fetching it fails, in which case only the trial counts. */
  function GetSubscriptionStatus(info: Option<CustomerInfo>, firstLaunch: Option<int>, now: int): (st: SubscriptionStatus)
    ensures st.isLifetime <==> info.Some? && LifetimeEntitlement in info.value.active
    ensures st.isMonthly <==> info.Some? && MonthlyEntitlement in info.value.active
    ensures st.isSubscribed <==> info.Some? && Entitled(info.value)
    ensures st.isSubscribed <==> st.isLifetime || st.isMonthly
    ensures st.expirationDate.Some? ==> st.isMonthly
    ensures st.isMonthly ==> st.expirationDate == info.value.active[MonthlyEntitlement].expirationDate
    ensures st.isInTrial == CalculateTrialStatus(firstLaunch, now).isInTrial
    ensures st.trialDaysRemaining == CalculateTrialStatus(firstLaunch, now).daysRemaining
  {
    var trial := CalculateTrialStatus(firstLaunch, now);
    match info
    case None => SubscriptionStatus(false, false, false, trial.isInTrial, trial.daysRemaining, None)
    case Some(ci) =>
      var lifetime := LifetimeEntitlement in ci.active;
      var monthly := MonthlyEntitlement in ci.active;
      SubscriptionStatus(lifetime || monthly, lifetime, monthly, trial.isInTrial, trial.daysRemaining,
                         if monthly then ci.active[MonthlyEntitlement].expirationDate else None)
  }

  /** `hasAccess`: a subscription or a running trial. */
  function HasAccess(info: Option<CustomerInfo>, firstLaunch: Option<int>, now: int): (ok: bool)
    ensures ok <==> (info.Some? && Entitled(info.value)) || CalculateTrialStatus(firstLaunch, now).isInTrial
  {
    var st := GetSubscriptionStatus(info, firstLaunch, now);
    st.isSubscribed || st.isInTrial
  }

  /** Within thirty days of the first launch access is granted whatever the
      SDK says; after that, only an entitlement grants it. */
  lemma AccessOverTime(info: Option<CustomerInfo>, first: int, now: int)
    ensures first <= now < first + TrialDays * MsPerDay ==> HasAccess(info, Some(first), now)
    ensures now >= first + TrialDays * MsPerDay ==>
              (HasAccess(info, Some(first), now) <==> info.Some? && Entitled(info.value))
  {
  }

  // ---------------------------------------------------------------------
  // Purchases.

  /** What an SDK call yields: the customer record, or an error carrying the
      `userCancelled` flag and a message (`""` when it has none). */
  datatype SdkResult = Ok(info: CustomerInfo) | Err(userCancelled: bool, message: string)

  datatype Outcome = Outcome(success: bool, error: Option<string>)

  /** `purchasePackage`. */
  function PurchasePackage(res: SdkResult): (o: Outcome)
    ensures o.success <==> res.Ok? && Entitled(res.info)
    ensures res.Ok? ==> o.error.None?
    ensures res.Err? && res.userCancelled ==> o.error == Some("Purchase cancelled")
    ensures res.Err? && !res.userCancelled && res.message != "" ==> o.error == Some(res.message)
    ensures res.Err? && !res.userCancelled && res.message == "" ==> o.error == Some("Purchase failed")
    ensures o.error.Some? ==> o.error.value != ""
  {
    match res
    case Ok(info) => Outcome(Entitled(info), None)
    case Err(cancelled, message) =>
      if cancelled then Outcome(false, Some("Purchase cancelled"))
      else Outcome(false, Some(if message != "" then message else "Purchase failed"))
  }

  /** `restorePurchases`: a restore that reaches the SDK succeeds, and says
      so when it found nothing to restore. */
  function RestorePurchases(res: SdkResult): (o: Outcome)
    ensures o.success <==> res.Ok?
    ensures res.Ok? ==> (o.error.None? <==> Entitled(res.info))
    ensures res.Ok? && !Entitled(res.info) ==> o.error == Some("No previous purchases found")
    ensures res.Err? && res.message != "" ==> o.error == Some(res.message)
    ensures res.Err? && res.message == "" ==> o.error == Some("Restore failed")
    ensures o.error.Some? ==> o.error.value != ""
  {
    match res
    case Ok(info) => Outcome(true, if Entitled(info) then None else Some("No previous purchases found"))
    case Err(_, message) => Outcome(false, Some(if message != "" then message else "Restore failed"))
  }

  // ---------------------------------------------------------------------
  // Initialisation.

  /** The service's flag and the stored first-launch timestamp (`None` when
      nothing, or the empty string, is stored). */
  datatype Service = Service(initialized: bool, firstLaunch: Option<int>)

  /** `initialize`: does nothing once initialised; otherwise records the
      first launch if none is recorded and sets the flag. `storageFails`
      stands for the storage call throwing, which the method catches,
      leaving everything as it was. */
  function Initialize(svc: Service, now: int, storageFails: bool): (r: Service)
    ensures svc.initialized ==> r == svc
    ensures !svc.initialized && !storageFails ==> r.initialized
    ensures storageFails ==> r == svc
    ensures svc.firstLaunch.Some? ==> r.firstLaunch == svc.firstLaunch
    ensures !svc.initialized && !storageFails && svc.firstLaunch.None? ==> r.firstLaunch == Some(now)
  {
    if svc.initialized || storageFails then svc
    else
      var first := if svc.firstLaunch.None? then Some(now) else svc.firstLaunch;
      Service(true, first)
  }

  /** Once it has succeeded, initialising again changes nothing, whenever
      and however the later call goes. */
  lemma InitializeOnce(svc: Service, now: int, later: int, fails: bool)
    ensures Initialize(Initialize(svc, now, false), later, fails) == Initialize(svc, now, false)
  {
  }
}
