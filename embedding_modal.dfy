/**
 * The embedding dialog of the persons page: choosing Add, Update or Remove,
 * confirming an update, starting and stopping the extraction, the one-second
 * timer shown while it runs, and the `mm:ss` text of that timer.
 *
 * Answers to `window.confirm` and the success of each HTTP request are
 * parameters of the handlers; the handlers return the alert they raise.
 */
module EmbeddingModal {
  import opened Js
  import opened Decimal

  /** The `mode` state: `null`, "add", "update" or "remove". */
  datatype Mode = NoMode | Add | Update | Remove

  // ---------------------------------------------------------------------
  // formatTime
  // ---------------------------------------------------------------------

  /** `formatTime(seconds)`: whole minutes and remaining seconds, each padded to two digits. */
  function FormatTime(n: nat): (r: string)
    ensures |r| >= 5 && r[|r| - 3] == ':'
    ensures |r| == 5 <==> n < 6000
    ensures r[..|r| - 3] == PadStart2(NatToString(n / 60))
    ensures r[|r| - 2..] == PadStart2(NatToString(n % 60))
  {
    var m := PadStart2(NatToString(n / 60));
    var s := PadStart2(NatToString(n % 60));
    assert |s| == 2;
    var r := m + ":" + s;
    assert r[..|r| - 3] == m && r[|r| - 2..] == s;
    r
  }

  /** Reads a clock text `"M:SS"` back into seconds; the seconds part must be below 60. */
  function ReadClock(t: string): Option<nat> {
    match ReadNat(t)
    case None => None
    case Some((m, r)) =>
      if r != [] && r[0] == ':' then
        match ReadNat(r[1..])
        case None => None
        case Some((s, rest)) => if rest == [] && s < 60 then Some(m * 60 + s) else None
      else None
  }

  /** A padded numeral is all digits and denotes the number it pads. */
  lemma PaddedValue(k: nat)
    ensures AllDigits(PadStart2(NatToString(k)))
    ensures Value(PadStart2(NatToString(k))) == k
  {
    var s := NatToString(k);
    ValueOfNatToString(k);
    if |s| < 2 {
      ValueLeadingZero(s);
      assert PadStart2(s) == "0" + s;
    }
  }

  /** Reading a padded numeral, followed by a non-digit, recovers the number and what follows. */
  lemma ReadPadded(k: nat, t: string)
    requires t == [] || !IsDigit(t[0])
    ensures ReadNat(PadStart2(NatToString(k)) + t) == Some((k, t))
  {
    PaddedValue(k);
    ReadNatOfDigits(PadStart2(NatToString(k)), t);
  }

  /** Padded minutes are read up to the colon after them. */
  lemma ReadMinutesPart(m: nat, b: string)
    ensures ReadNat(PadStart2(NatToString(m)) + (":" + b)) == Some((m, ":" + b))
  {
    ReadPadded(m, ":" + b);
  }

  /** Padded seconds are read to the end of the text. */
  lemma ReadSecondsPart(sec: nat)
    ensures ReadNat(PadStart2(NatToString(sec))) == Some((sec, ""))
  {
    ReadPadded(sec, "");
    assert PadStart2(NatToString(sec)) + "" == PadStart2(NatToString(sec));
  }

  /** A clock text whose minutes numeral is followed by a colon and an in-range seconds numeral. */
  lemma ReadClockParts(t: string, r: string, m: nat, sec: nat)
    requires ReadNat(t) == Some((m, r)) && r != [] && r[0] == ':'
    requires ReadNat(r[1..]) == Some((sec, "")) && sec < 60
    ensures ReadClock(t) == Some(m * 60 + sec)
  {
  }

  /** Two numerals joined by a colon, read as minutes and in-range seconds. */
  lemma ReadClockJoined(a: string, b: string, m: nat, sec: nat)
    requires ReadNat(a + (":" + b)) == Some((m, ":" + b))
    requires ReadNat(b) == Some((sec, "")) && sec < 60
    ensures ReadClock(a + ":" + b) == Some(m * 60 + sec)
  {
    var r := ":" + b;
    assert a + ":" + b == a + r;
    assert r[1..] == b;
    ReadClockParts(a + r, r, m, sec);
  }

  /** Padded minutes and in-range seconds, joined by a colon, read back as their total. */
  lemma ClockOfParts(m: nat, sec: nat)
    requires sec < 60
    ensures ReadClock(PadStart2(NatToString(m)) + ":" + PadStart2(NatToString(sec))) == Some(m * 60 + sec)
  {
    ReadMinutesPart(m, PadStart2(NatToString(sec)));
    ReadSecondsPart(sec);
    ReadClockJoined(PadStart2(NatToString(m)), PadStart2(NatToString(sec)), m, sec);
  }

  /** The timer text reads back as the number of seconds it shows. */
  lemma ClockRoundTrip(n: nat)
    ensures ReadClock(FormatTime(n)) == Some(n)
  {
    ClockOfParts(n / 60, n % 60);
  }

  // ---------------------------------------------------------------------
  // The dialog's state
  // ---------------------------------------------------------------------

  class Component {
    /** The `isOpen` property the page passes in. */
    var isOpen: bool
    var mode: Mode
    var path: string
    var confirmed: bool
    var started: bool
    var timer: nat
    /** Start requests sent whose answer has not arrived yet. */
    var startsPending: nat
    /** Stop requests sent whose answer has not arrived yet. */
    var stopsPending: nat

    /**
     * What every handler keeps, including the answer of a request that
     * arrives after the mode changed: the timer is zero while nothing runs,
     * Add is confirmed from the start, and no mode or Remove is never
     * confirmed.
     */
    ghost predicate Valid()
      reads this
    {
      && (!started ==> timer == 0)
      && (mode == Add ==> confirmed)
      && (mode == NoMode || mode == Remove ==> !confirmed)
    }

    /**
     * A running extraction belongs to a confirmed Add or Update. Every
     * handler keeps this except the answer to a Start request that arrives
     * after the user switched modes (see `StartOutlivesMode`).
     */
    ghost predicate RunOwned()
      reads this
    {
      started ==> confirmed && (mode == Add || mode == Update)
    }

    /** The Start and Stop buttons are rendered: after Add, or after a confirmed Update. */
    predicate ControlsShown()
      reads this
      ensures ControlsShown() ==> isOpen && confirmed && mode != NoMode && mode != Remove
    {
      isOpen && (mode == Add || mode == Update) && confirmed
    }

    /** Start is rendered and not disabled. */
    predicate StartEnabled()
      reads this
      ensures StartEnabled() ==> ControlsShown() && !started
    {
      ControlsShown() && !started
    }

    /** Stop is rendered and not disabled. */
    predicate StopEnabled()
      reads this
      ensures StopEnabled() ==> ControlsShown() && started
    {
      ControlsShown() && started
    }

    /** The "Confirm Update" button is rendered. */
    predicate ConfirmUpdateShown()
      reads this
      ensures ConfirmUpdateShown() ==> !ControlsShown() && !StartEnabled() && !StopEnabled()
    {
      isOpen && mode == Update && !confirmed
    }

    /** The initial values of the state hooks; no request is in flight. */
    constructor (isOpen: bool)
      ensures Valid() && RunOwned()
      ensures this.isOpen == isOpen
      ensures mode == NoMode && path == "" && !confirmed && !started && timer == 0
      ensures startsPending == 0 && stopsPending == 0
    {
      this.isOpen := isOpen;
      mode := NoMode;
      path := "";
      confirmed := false;
      started := false;
      timer := 0;
      startsPending := 0;
      stopsPending := 0;
    }

    /**
     * The effect on `isOpen`, run only when the property changes: opening the
     * dialog resets every field; closing it resets nothing. Requests in
     * flight are not cancelled.
     */
    method IsOpenChanged(isOpen: bool)
      requires Valid() && isOpen != this.isOpen
      modifies this
      ensures Valid() && this.isOpen == isOpen
      ensures isOpen ==> mode == NoMode && path == "" && !confirmed && !started && timer == 0
      ensures !isOpen ==> (mode == old(mode) && path == old(path) && confirmed == old(confirmed)
                           && started == old(started) && timer == old(timer))
      ensures startsPending == old(startsPending) && stopsPending == old(stopsPending)
      ensures old(RunOwned()) ==> RunOwned()
    {
      this.isOpen := isOpen;
      if isOpen {
        mode := NoMode;
        path := "";
        confirmed := false;
        started := false;
        timer := 0;
      }
    }

    /** The Add button: confirmed at once, nothing running. */
    method ChooseAdd()
      requires Valid() && isOpen
      modifies this`mode, this`confirmed, this`started, this`timer
      ensures Valid() && RunOwned()
      ensures mode == Add && confirmed && !started && timer == 0
    {
      mode := Add;
      confirmed := true;
      started := false;
      timer := 0;
    }

    /** The Update button: not yet confirmed, nothing running. */
    method ChooseUpdate()
      requires Valid() && isOpen
      modifies this`mode, this`confirmed, this`started, this`timer
      ensures Valid() && RunOwned()
      ensures mode == Update && !confirmed && !started && timer == 0
    {
      mode := Update;
      confirmed := false;
      started := false;
      timer := 0;
    }

    /** The Remove button: not confirmed, nothing running. */
    method ChooseRemove()
      requires Valid() && isOpen
      modifies this`mode, this`confirmed, this`started, this`timer
      ensures Valid() && RunOwned()
      ensures mode == Remove && !confirmed && !started && timer == 0
    {
      mode := Remove;
      confirmed := false;
      started := false;
      timer := 0;
    }

    /** `handleUpdateConfirm`: confirmed exactly when the user answers yes; nothing else changes. */
    method UpdateConfirm(userConfirms: bool)
      requires Valid() && ConfirmUpdateShown()
      modifies this`confirmed
      ensures Valid()
      ensures confirmed == userConfirms
      ensures old(RunOwned()) ==> RunOwned()
    {
      if !userConfirms {
        return;
      }
      confirmed := true;
    }

    /**
     * A click on Start: `handleStart` sends its request and waits. Nothing
     * else changes, so Start stays enabled and the mode buttons stay live
     * until the answer arrives.
     */
    method StartRequested()
      requires Valid() && StartEnabled()
      modifies this`startsPending
      ensures Valid()
      ensures startsPending == old(startsPending) + 1
    {
      startsPending := startsPending + 1;
    }

    /**
     * The answer to a Start request: on success the extraction runs,
     * whatever the mode is by then; a failure changes nothing. Returns the
     * alert shown.
     */
    method StartSettled(ok: bool) returns (alert: string)
      requires Valid() && startsPending > 0
      modifies this`started, this`startsPending
      ensures Valid()
      ensures startsPending == old(startsPending) - 1
      ensures started == (ok || old(started))
      ensures alert == if ok then "Embedding process started!" else "Error starting embedding."
      ensures old(RunOwned()) && (ok ==> confirmed && (mode == Add || mode == Update)) ==> RunOwned()
    {
      startsPending := startsPending - 1;
      if ok {
        started := true;
        alert := "Embedding process started!";
      } else {
        alert := "Error starting embedding.";
      }
    }

    /** A click on Stop: `handleStop` sends its request and waits; Stop stays enabled. */
    method StopRequested()
      requires Valid() && StopEnabled()
      modifies this`stopsPending
      ensures Valid()
      ensures stopsPending == old(stopsPending) + 1
    {
      stopsPending := stopsPending + 1;
    }

    /**
     * The answer to a Stop request: success stops the extraction, clears
     * the timer and the page reloads its users; a failure changes nothing.
     */
    method StopSettled(ok: bool) returns (alert: string, reload: bool)
      requires Valid() && stopsPending > 0
      modifies this`started, this`timer, this`stopsPending
      ensures Valid()
      ensures stopsPending == old(stopsPending) - 1
      ensures started == (old(started) && !ok)
      ensures timer == if ok then 0 else old(timer)
      ensures reload == ok
      ensures alert == if ok then "Embedding process stopped!" else "Error stopping embedding."
      ensures old(RunOwned()) ==> RunOwned()
    {
      stopsPending := stopsPending - 1;
      if ok {
        started := false;
        timer := 0;
        alert := "Embedding process stopped!";
        reload := true;
      } else {
        alert := "Error stopping embedding.";
        reload := false;
      }
    }

    /** One firing of the one-second interval, which exists only while the extraction runs. */
    method Tick()
      requires Valid()
      modifies this`timer
      ensures Valid()
      ensures timer == if started then old(timer) + 1 else old(timer)
      ensures old(RunOwned()) ==> RunOwned()
    {
      if started {
        timer := timer + 1;
      }
    }

    /**
     * `handleDelete` (the "Confirm Delete" button of Remove): the request is
     * sent only when the user confirms; on success the users are reloaded and
     * the dialog asks to be closed. The dialog's own state does not change,
     * so the answer has the same effect whenever it arrives.
     */
    method ConfirmDelete(userConfirms: bool, ok: bool)
      returns (sent: bool, alert: Option<string>, reload: bool, closeRequested: bool)
      requires isOpen && mode == Remove
      ensures sent == userConfirms
      ensures reload <==> userConfirms && ok
      ensures closeRequested <==> userConfirms && ok
      ensures alert == if !userConfirms then None
                       else if ok then Some("Embedding removed!")
                       else Some("Error removing embedding.")
    {
      sent := false;
      alert := None;
      reload := false;
      closeRequested := false;
      if !userConfirms {
        return;
      }
      sent := true;
      if ok {
        alert := Some("Embedding removed!");
        reload := true;
        closeRequested := true;
      } else {
        alert := Some("Error removing embedding.");
      }
    }

    /** The timer text, rendered only while the extraction runs. */
    function TimerText(): (t: Option<string>)
      reads this
      ensures t.Some? <==> ControlsShown() && started
      ensures t.Some? ==> ReadClock(t.value) == Some(timer) && t.value == FormatTime(timer)
    {
      if ControlsShown() && started then
        ClockRoundTrip(timer);
        Some(FormatTime(timer))
      else None
    }
  }

  /** Start and Stop are reachable only once the mode is confirmed, and never both at once. */
  lemma ControlsNeedConfirmation(c: Component)
    ensures c.StartEnabled() || c.StopEnabled() ==> c.confirmed && c.isOpen
    ensures !(c.StartEnabled() && c.StopEnabled())
  {
  }

  /** While the extraction belongs to a confirmed Add or Update, Stop is enabled exactly while it runs in the open dialog. */
  lemma StopEnabledWhileRunning(c: Component)
    requires c.RunOwned()
    ensures c.StopEnabled() <==> c.isOpen && c.started
  {
  }

  /**
   * The answer to Start is not tied to the mode it was requested in: choose
   * Update, confirm it, press Start, choose Remove before the answer, and the
   * extraction runs in Remove mode with its timer shown nowhere and no Stop
   * button to press.
   */
  method StartOutlivesMode() returns (c: Component)
    ensures c.Valid() && c.isOpen
    ensures c.started && c.mode == Remove && !c.confirmed
    ensures !c.RunOwned() && !c.StopEnabled() && c.TimerText().None?
  {
    c := new Component(true);
    c.ChooseUpdate();
    c.UpdateConfirm(true);
    c.StartRequested();
    c.ChooseRemove();
    var _ := c.StartSettled(true);
  }
}
