/**
 The solicitation loop: at most three Router Solicitations with doubling gaps (RFC 7559
 section 2), and the first Router Advertisement the caller accepts.
 */
module Solicit {
  import opened Bytes
  import opened NdMessage

  const MAX_SOLICITATIONS := 3
  const MAX_REPORTED := 8
  const INTERVAL: int := SECOND

  /** What a read returns: a message and its sender, an expired deadline, or another error. */
  datatype Read = Packet(msg: Message, router: Addr16) | DeadlineExceeded | Failure

  /** What the environment does in one turn of the loop: the clock, whether sending and setting the
      deadline work, what the read returns, and whether the context has ended before or after it. */
  datatype Turn = Turn(now: int, sends: bool, deadlineSet: bool, endedBefore: bool, read: Read, endedAfter: bool)

  datatype Outcome =
    | Accepted(ra: Advertisement, router: Addr16)
    | Ended(sent: nat, rejected: nat, routers: seq<Addr16>) // SolicitError
    | Broken // an I/O error
    | Waiting // the environment's turns are used up

  // The schedule of solicitations, as a timer driven by the clock readings of the turns.

  datatype Timer = Timer(sent: seq<int>, next: int, interval: int)

  function Tick(t: Timer, now: int): Timer {
    if |t.sent| < MAX_SOLICITATIONS && now >= t.next
    then Timer(t.sent + [now], now + t.interval, 2 * t.interval)
    else t
  }

  function Ticks(start: int, turns: seq<Turn>): Timer {
    if turns == [] then Timer([], start, INTERVAL)
    else Tick(Ticks(start, turns[..|turns| - 1]), turns[|turns| - 1].now)
  }

  /** In every run: at most three solicitations; the k-th retransmission at least 2^(k-1) seconds after
      the one before; none due is left unsent, since every clock reading after the last one is before
      the next is due. */
  lemma {:induction false} SolicitationsAreSpaced(start: int, turns: seq<Turn>)
    ensures Spaced(start, Ticks(start, turns))
    ensures var t := Ticks(start, turns);
            turns != [] && |t.sent| < 3 ==> turns[|turns| - 1].now < t.next
  {
    if turns != [] {
      SolicitationsAreSpaced(start, turns[..|turns| - 1]);
      TickKeepsSpaced(start, Ticks(start, turns[..|turns| - 1]), turns[|turns| - 1].now);
    }
  }

  ghost predicate Spaced(start: int, t: Timer) {
    && |t.sent| <= 3
    && t.interval == SECOND * Pow2(|t.sent|)
    && (forall i :: 0 < i < |t.sent| ==> t.sent[i] >= t.sent[i - 1] + SECOND * Pow2(i - 1))
    && (if t.sent == [] then t.next == start
        else t.next == t.sent[|t.sent| - 1] + SECOND * Pow2(|t.sent| - 1) && t.sent[0] >= start)
  }

  lemma {:induction false} TickKeepsSpaced(start: int, t: Timer, now: int)
    requires Spaced(start, t)
    ensures Spaced(start, Tick(t, now))
  {
    var n := |t.sent|;
    assert Pow2(n + 1) == 2 * Pow2(n);
  }

  /** Solicitations go out no earlier than 0, 1 and 3 seconds after the start. */
  lemma {:induction false} EarliestSolicitations(start: int, turns: seq<Turn>)
    ensures var sent := Ticks(start, turns).sent;
            && (|sent| > 0 ==> sent[0] >= start)
            && (|sent| > 1 ==> sent[1] >= start + SECOND)
            && (|sent| > 2 ==> sent[2] >= start + 3 * SECOND)
  {
    SolicitationsAreSpaced(start, turns);
    assert Pow2(0) == 1 && Pow2(1) == 2;
  }

  // Rejected advertisements.

  predicate ReadsAdvertisement(t: Turn) {
    t.read.Packet? && t.read.msg.RouterAdvertisement?
  }

  /** The turn delivers an advertisement that accept approves. */
  predicate Approved(t: Turn, accept: (Advertisement, Addr16) -> bool) {
    ReadsAdvertisement(t) && accept(t.read.msg.ra, t.read.router)
  }

  /** The senders of the advertisements read in turns, in order. */
  function Senders(turns: seq<Turn>): seq<Addr16> {
    if turns == [] then []
    else
      var (rest, last) := (Senders(turns[..|turns| - 1]), turns[|turns| - 1]);
      if ReadsAdvertisement(last) then rest + [last.read.router] else rest
  }

  function Report(routers: seq<Addr16>, router: Addr16): seq<Addr16> {
    if |routers| < MAX_REPORTED && router !in routers then routers + [router] else routers
  }

  /** The routers a report lists. */
  function Reported(senders: seq<Addr16>): seq<Addr16> {
    if senders == [] then [] else Report(Reported(senders[..|senders| - 1]), senders[|senders| - 1])
  }

  /** Reported routers are distinct senders, at most eight and no more than the advertisements, and no
      sender is missing unless eight are listed. */
  lemma {:induction false} ReportIsFair(senders: seq<Addr16>)
    ensures var r := Reported(senders);
            && |r| <= 8 && |r| <= |senders|
            && (forall i, j :: 0 <= i < j < |r| ==> r[i] != r[j])
            && (forall a :: a in r ==> a in senders)
            && (forall a :: a in senders ==> a in r || |r| == 8)
  {
    if senders != [] {
      ReportIsFair(senders[..|senders| - 1]);
      assert senders == senders[..|senders| - 1] + [senders[|senders| - 1]];
    }
  }

  /** What the loop's variables hold after the given turns. */
  ghost predicate Progress(start: int, turns: seq<Turn>, timer: Timer, rejected: nat, routers: seq<Addr16>) {
    timer == Ticks(start, turns) && rejected == |Senders(turns)| && routers == Reported(Senders(turns))
  }

  lemma {:induction false} OneMoreTurn(start: int, turns: seq<Turn>, k: nat, timer: Timer, rejected: nat,
                                       routers: seq<Addr16>)
    requires k < |turns| && Progress(start, turns[..k], timer, rejected, routers)
    ensures var (t, after) := (turns[k], Tick(timer, turns[k].now));
            && Ticks(start, turns[..k + 1]) == after
            && if ReadsAdvertisement(t)
               then Progress(start, turns[..k + 1], after, rejected + 1, Report(routers, t.read.router))
               else Progress(start, turns[..k + 1], after, rejected, routers)
  {
    assert turns[..k + 1][..k] == turns[..k];
    var s := Senders(turns[..k]);
    if ReadsAdvertisement(turns[k]) {
      assert (s + [turns[k].read.router])[..|s|] == s;
    }
  }

  /** Sends a solicitation if one is due. */
  method SendIfDue(timer: Timer, turn: Turn) returns (ok: bool, after: Timer)
    ensures ok <==> turn.sends || Tick(timer, turn.now) == timer
    ensures after == if ok then Tick(timer, turn.now) else timer
  {
    after := timer;
    if |timer.sent| < MAX_SOLICITATIONS && turn.now >= timer.next {
      if !turn.sends {
        return false, after;
      }
      after := Timer(timer.sent + [turn.now], turn.now + timer.interval, 2 * timer.interval);
    }
    ok := true;
  }

  /** One turn of the loop; Waiting if it goes on. */
  method TakeTurn(turn: Turn, accept: (Advertisement, Addr16) -> bool, timer0: Timer, rejected0: nat,
                  routers0: seq<Addr16>)
    returns (outcome: Outcome, timer: Timer, rejected: nat, routers: seq<Addr16>)
    ensures timer == if turn.sends then Tick(timer0, turn.now) else timer0
    ensures var broken := || (!turn.sends && Tick(timer0, turn.now) != timer0) || !turn.deadlineSet
                          || (!turn.endedBefore && turn.read.Failure? && !turn.endedAfter);
            && (outcome.Broken? <==> broken)
            && (outcome.Ended? <==> !broken && ContextEnded(turn))
            && (outcome.Accepted? <==> !broken && !turn.endedBefore && Approved(turn, accept))
    ensures outcome.Ended? ==> outcome == Ended(|timer.sent|, rejected0, routers0)
    ensures outcome.Accepted? ==> turn.read == Packet(RouterAdvertisement(outcome.ra), outcome.router)
    ensures outcome.Waiting? ==>
              if ReadsAdvertisement(turn)
              then rejected == rejected0 + 1 && routers == Report(routers0, turn.read.router)
              else rejected == rejected0 && routers == routers0
  {
    rejected, routers := rejected0, routers0;
    var ok;
    ok, timer := SendIfDue(timer0, turn);
    if !ok || !turn.deadlineSet {
      return Broken, timer, rejected, routers;
    }
    if turn.endedBefore {
      return Ended(|timer.sent|, rejected, routers), timer, rejected, routers;
    }
    outcome := Waiting;
    match turn.read
    case DeadlineExceeded =>
      if turn.endedAfter {
        outcome := Ended(|timer.sent|, rejected, routers);
      }
    case Failure =>
      outcome := if turn.endedAfter then Ended(|timer.sent|, rejected, routers) else Broken;
    case Packet(msg, router) =>
      if msg.RouterAdvertisement? {
        if accept(msg.ra, router) {
          return Accepted(msg.ra, router), timer, rejected, routers;
        }
        rejected := rejected + 1;
        if |routers| < MAX_REPORTED && router !in routers {
          routers := routers + [router];
        }
      }
  }

  /** Turn k breaks the loop off: a due solicitation cannot be sent, the deadline cannot be set, or the read
      fails on its own. */
  predicate Breaks(start: int, turns: seq<Turn>, k: nat)
    requires k < |turns|
  {
    var t := turns[k];
    || (!t.sends && Ticks(start, turns[..k + 1]) != Ticks(start, turns[..k]))
    || !t.deadlineSet
    || (!t.endedBefore && t.read.Failure? && !t.endedAfter)
  }

  /** The context has ended before the read, or with a read that brought nothing. */
  predicate ContextEnded(t: Turn) {
    t.endedBefore || (t.endedAfter && !t.read.Packet?)
  }

  predicate GoesOn(start: int, turns: seq<Turn>, k: nat, accept: (Advertisement, Addr16) -> bool)
    requires k < |turns|
  {
    !Breaks(start, turns, k) && !ContextEnded(turns[k]) && !Approved(turns[k], accept)
  }

  /** Runs the loop over the environment's turns. It consumes used of them and sends on schedule. It ends with the
      first turn that does not go on, and with what that turn is: broken, ended with a report of what was
      rejected before, or accepted. */
  method Run(start: int, accept: (Advertisement, Addr16) -> bool, turns: seq<Turn>)
    returns (outcome: Outcome, sends: seq<int>, used: nat)
    ensures used <= |turns|
    ensures !outcome.Broken? ==> sends == Ticks(start, turns[..used]).sent
    ensures outcome.Broken? ==>
              used > 0 && sends == Ticks(start, turns[..if turns[used - 1].sends then used else used - 1]).sent
    ensures outcome.Waiting? ==> used == |turns| && forall k: nat :: k < used ==> GoesOn(start, turns, k, accept)
    ensures !outcome.Waiting? ==>
              && used > 0 && (forall k: nat :: k < used - 1 ==> GoesOn(start, turns, k, accept))
              && var t := turns[used - 1];
                 && (outcome.Broken? <==> Breaks(start, turns, used - 1))
                 && (outcome.Ended? <==> !Breaks(start, turns, used - 1) && ContextEnded(t))
                 && (outcome.Accepted? <==> !Breaks(start, turns, used - 1) && !t.endedBefore && Approved(t, accept))
    ensures outcome.Accepted? ==>
              && turns[used - 1].read == Packet(RouterAdvertisement(outcome.ra), outcome.router)
              && accept(outcome.ra, outcome.router)
    ensures outcome.Ended? ==>
              var senders := Senders(turns[..used - 1]);
              && outcome.sent == |sends| && outcome.rejected == |senders|
              && outcome.routers == Reported(senders)
  {
    var timer := Timer([], start, INTERVAL);
    var rejected: nat, routers: seq<Addr16> := 0, [];
    used := 0;
    while used < |turns|
      invariant used <= |turns|
      invariant Progress(start, turns[..used], timer, rejected, routers)
      invariant forall k: nat :: k < used ==> GoesOn(start, turns, k, accept)
    {
      OneMoreTurn(start, turns, used, timer, rejected, routers);
      used := used + 1;
      outcome, timer, rejected, routers := TakeTurn(turns[used - 1], accept, timer, rejected, routers);
      if !outcome.Waiting? {
        return outcome, timer.sent, used;
      }
    }
    assert turns[..used] == turns;
    outcome, sends := Waiting, timer.sent;
  }
}
