/** The rate-the-app prompt: a persisted launch counter and the launch count from which the
    prompt is shown again. Postponing it moves that threshold 5 launches (remind later) or
    100 launches (rate now) past the current count. */
module Rate {
  import opened GameModels

  /** The threshold a fresh install starts with. */
  const DefaultThreshold: int := 10
  /** How many launches "remind me later" postpones the prompt by. */
  const RemindDelay: int := 5
  /** How many launches rating postpones the prompt by. */
  const RateDelay: int := 100

  /** The two persisted counters. */
  datatype RateState = RateState(launchCount: int, threshold: int)

  /** A launch is due a prompt once the count has reached the threshold. */
  predicate PromptDue(s: RateState) {
    s.launchCount >= s.threshold
  }

  /** One app launch: the count goes up by one, the threshold stays. */
  function Launch(s: RateState): RateState {
    RateState(s.launchCount + 1, s.threshold)
  }

  /** k launches in a row. */
  function Launches(s: RateState, k: nat): RateState {
    if k == 0 then s else Launch(Launches(s, k - 1))
  }

  /** "Remind me later": the prompt returns RemindDelay launches from now. */
  function Remind(s: RateState): RateState {
    RateState(s.launchCount, s.launchCount + RemindDelay)
  }

  /** "Rate now": the prompt returns RateDelay launches from now. */
  function Rated(s: RateState): RateState {
    RateState(s.launchCount, s.launchCount + RateDelay)
  }

  /** k launches add k to the count and leave the threshold alone. */
  lemma {:induction false} LaunchesAdd(s: RateState, k: nat)
    ensures Launches(s, k) == RateState(s.launchCount + k, s.threshold)
  {
    if k > 0 {
      LaunchesAdd(s, k - 1);
    }
  }

  /** On a fresh install the k-th launch is the first to prompt exactly from the tenth on. */
  lemma {:induction false} FreshInstallPrompts(k: nat)
    ensures PromptDue(Launches(RateState(0, DefaultThreshold), k)) <==> k >= 10
  {
    LaunchesAdd(RateState(0, DefaultThreshold), k);
  }

  /** After "remind me later" the k-th further launch prompts exactly when k >= 5. */
  lemma {:induction false} RemindPostpones(s: RateState, k: nat)
    ensures PromptDue(Launches(Remind(s), k)) <==> k >= 5
  {
    LaunchesAdd(Remind(s), k);
  }

  /** After rating the k-th further launch prompts exactly when k >= 100. */
  lemma {:induction false} RatePostpones(s: RateState, k: nat)
    ensures PromptDue(Launches(Rated(s), k)) <==> k >= 100
  {
    LaunchesAdd(Rated(s), k);
  }

  /** Once due, a prompt stays due on every later launch until it is postponed. */
  lemma {:induction false} PromptStaysDue(s: RateState, k: nat)
    requires PromptDue(s)
    ensures PromptDue(Launches(s, k))
  {
    LaunchesAdd(s, k);
  }

  /** The app-wide rate manager. The popup flag is raised by a delayed job launched on a due
      launch; pendingPopups counts such jobs that have not fired yet. Nothing cancels them. */
  class RateManager {
    var launchCount: int
    var nextReviewThreshold: int
    var showRatePopup: bool
    var pendingPopups: nat

    function State(): RateState
      reads this
    {
      RateState(launchCount, nextReviewThreshold)
    }

    /** Reads the stored counters; a missing count reads as 0, a missing threshold as 10. */
    constructor(storedCount: Option<int>, storedThreshold: Option<int>)
      ensures State() == RateState(storedCount.GetOr(0), storedThreshold.GetOr(DefaultThreshold))
      ensures !showRatePopup && pendingPopups == 0
    {
      launchCount := storedCount.GetOr(0);
      nextReviewThreshold := storedThreshold.GetOr(DefaultThreshold);
      showRatePopup := false;
      pendingPopups := 0;
    }

    /** appDidLaunch: count the launch; if the prompt is due, schedule the popup. */
    method AppDidLaunch()
      modifies this`launchCount, this`pendingPopups
      ensures State() == Launch(old(State()))
      ensures pendingPopups == old(pendingPopups) + (if PromptDue(State()) then 1 else 0)
    {
      launchCount := launchCount + 1;
      if launchCount >= nextReviewThreshold {
        pendingPopups := pendingPopups + 1;
      }
    }

    /** A scheduled popup job whose delay has passed shows the popup, whatever happened since. */
    method DeliverPopup()
      requires pendingPopups > 0
      modifies this`showRatePopup, this`pendingPopups
      ensures showRatePopup && pendingPopups == old(pendingPopups) - 1
    {
      showRatePopup := true;
      pendingPopups := pendingPopups - 1;
    }

    /** remindMeLater: postpone by RemindDelay launches and hide the popup. */
    method RemindMeLater()
      modifies this`nextReviewThreshold, this`showRatePopup
      ensures State() == Remind(old(State())) && !showRatePopup
    {
      nextReviewThreshold := launchCount + RemindDelay;
      showRatePopup := false;
    }

    /** rateNow: postpone by RateDelay launches and hide the popup; opening the store page is
        not modelled. */
    method RateNow()
      modifies this`nextReviewThreshold, this`showRatePopup
      ensures State() == Rated(old(State())) && !showRatePopup
    {
      nextReviewThreshold := launchCount + RateDelay;
      showRatePopup := false;
    }
  }
}
